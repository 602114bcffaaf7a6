/** Documents in all the forms that are read: elements as tuples or with names, sections in any order. */
module DocumentForms {
  import opened Wrappers
  import opened Serialization
  import opened DocumentInsertion
  import opened NamedMembers
  import SNM = StructureNameMap

  // ---- names ----

  lemma PairNamesDiffer()
    ensures SNM.NoneInEarlier(Names(PairNames))
  {
    hide SNM.Infix;
    SNM.NoInfix("value", "name", []);
  }

  lemma TermNamesDiffer()
    ensures SNM.NoneInEarlier(Names(TermNames))
  {
    hide SNM.Infix;
    SNM.NoInfix("value", "type", []);
    SNM.NoInfix("pos", "type", [0, 0]);
    SNM.NoInfix("pos", "value", [0, 0, 0]);
    SNM.NoInfix("len", "type", [0, 0]);
    SNM.NoInfix("len", "value", [0, 0, 1]);
    SNM.NoInfix("len", "pos", [0]);
  }

  lemma StructureNamesDiffer()
    ensures SNM.NoneInEarlier(Names(StructureNames))
  {
    hide SNM.Infix;
    SNM.NoInfix("source", "name", []);
    SNM.NoInfix("sink", "name", [0]);
    SNM.NoInfix("sink", "source", [1, 0, 0]);
  }

  lemma FirstSectionNamesDiffer()
    ensures var names := Names(SectionNames); forall i, j :: 0 <= j < i < 5 ==> !SNM.Infix(names[i], names[j])
  {
    hide SNM.Infix;
    SNM.NoInfix("doctype", "docid", []);
    SNM.NoInfix("attribute", "docid", []);
    SNM.NoInfix("attribute", "doctype", []);
    SNM.NoInfix("metadata", "docid", []);
    SNM.NoInfix("metadata", "doctype", []);
    SNM.NoInfix("metadata", "attribute", [0, 0]);
    SNM.NoInfix("forwardindex", "docid", []);
    SNM.NoInfix("forwardindex", "doctype", []);
    SNM.NoInfix("forwardindex", "attribute", []);
    SNM.NoInfix("forwardindex", "metadata", []);
  }

  lemma SearchNamesDiffer()
    ensures var names := Names(SectionNames);
            forall i, j :: 5 <= i < 7 && 0 <= j < i ==> !SNM.Infix(names[i], names[j])
  {
    hide SNM.Infix;
    SNM.NoInfix("searchindex", "docid", []);
    SNM.NoInfix("searchindex", "doctype", []);
    SNM.NoInfix("searchindex", "attribute", []);
    SNM.NoInfix("searchindex", "metadata", []);
    SNM.NoInfix("searchindex", "forwardindex", [0, 0]);
    SNM.NoInfix("searchstruct", "docid", []);
    SNM.NoInfix("searchstruct", "doctype", []);
    SNM.NoInfix("searchstruct", "attribute", []);
    SNM.NoInfix("searchstruct", "metadata", []);
    SNM.NoInfix("searchstruct", "forwardindex", [0]);
    SNM.NoInfix("searchstruct", "searchindex", []);
  }

  lemma AccessDiffers()
    ensures var names := Names(SectionNames); forall j :: 0 <= j < 4 ==> !SNM.Infix(names[7], names[j])
  {
    hide SNM.Infix;
    SNM.NoInfix("access", "docid", []);
    SNM.NoInfix("access", "doctype", [0, 0]);
    SNM.NoInfix("access", "attribute", [1, 0, 0, 0]);
    SNM.NoInfix("access", "metadata", [0, 0, 0]);
  }

  lemma AccessDiffersFromIndex()
    ensures var names := Names(SectionNames); forall j :: 4 <= j < 7 ==> !SNM.Infix(names[7], names[j])
  {
    hide SNM.Infix;
    SNM.NoInfix("access", "forwardindex", [0, 0, 0, 0, 1, 0, 0]);
    SNM.NoInfix("access", "searchindex", [0, 0, 1, 0, 0, 0]);
    SNM.NoInfix("access", "searchstruct", [0, 0, 1, 0, 0, 0, 0]);
  }

  lemma SectionNamesDiffer()
    ensures SNM.NoneInEarlier(Names(SectionNames))
  {
    hide SNM.Infix;
    FirstSectionNamesDiffer();
    SearchNamesDiffer();
    AccessDiffers();
    AccessDiffersFromIndex();
  }

  lemma Keyword(env: Env, t: Table, i: nat)
    requires FaithfulEnv(env) && i < |Names(t)|
    ensures env.index(t, Names(t)[i]) == i
  {
    hide SNM.NoneInEarlier, SNM.Index, SNM.Join;
    PairNamesDiffer();
    TermNamesDiffer();
    StructureNamesDiffer();
    SectionNamesDiffer();
    assert SNM.NoneInEarlier(Names(t));
    assert SNM.IsTable(Names(t), ',');
    SNM.AllNamesFound(Names(t), ',');
  }

  lemma ValuesAreKept(env: Env)
    requires FaithfulEnv(env)
    ensures Faithful(env.cv)
    ensures forall s :: env.cv.text(Str(s)) == Some(s)
    ensures forall n: nat :: n <= UINT_MAX ==> env.cv.uint32(Int(n)) == Some(n)
    ensures forall v :: IsNumber(v) ==> env.cv.numeric(v) == Some(v)
  {
  }

  // ---- attributes and metadata ----

  /** A pair is written inline behind its name, as tuple, or with the names "name" (0) and "value" (1). */
  datatype PairForm =
    | Inline(name: string, value: Value)
    | Tuple(name: string, value: Value)
    | ByNames(l: seq<Entry<Value>>)

  function PairName(kind: nat): string { if kind == 0 then "name" else "value" }

  function PrintPairMembers(l: seq<Entry<Value>>): Tokens
  {
    if l == [] then [] else [Name(PairName(l[0].kind)), Val(l[0].value)] + PrintPairMembers(l[1..])
  }

  function PrintPair(p: PairForm): Tokens
  {
    match p
    case Inline(name, value) => [Name(name), Val(value)]
    case Tuple(name, value) => [Open, Val(Str(name)), Val(value), Close]
    case ByNames(l) => [Open] + PrintPairMembers(l) + [Close]
  }

  /** A text, or a number for metadata. */
  predicate IsPairValue(numeric: bool, v: Value) { if numeric then IsNumber(v) else v.Str? }

  predicate IsPairEntry(numeric: bool, e: Entry<Value>)
  {
    (e.kind == 0 && e.value.Str?) || (e.kind == 1 && IsPairValue(numeric, e.value))
  }

  predicate PairInRange(numeric: bool, p: PairForm)
  {
    match p
    case Inline(_, value) => IsPairValue(numeric, value)
    case Tuple(_, value) => IsPairValue(numeric, value)
    case ByNames(l) => forall e :: e in l ==> IsPairEntry(numeric, e)
  }

  function PairEvents(numeric: bool, name: string, value: Value): Events
    requires IsPairValue(numeric, value)
  {
    [if numeric then SetMetaData(name, value) else SetAttribute(name, value.s)]
  }

  predicate IsPairMap(numeric: bool, m: map<nat, Value>) { forall k :: k in m ==> IsPairEntry(numeric, Entry(k, m[k])) }

  function PairOf(numeric: bool, m: map<nat, Value>): PairMembers
    requires IsPairMap(numeric, m)
  {
    PairMembers(if 0 in m then Some(m[0].s) else None,
                if 1 in m && !numeric then Some(m[1].s) else None,
                if 1 in m && numeric then Some(m[1]) else None)
  }

  lemma PairMemberRead(env: Env, numeric: bool, e: Entry<Value>, more: Tokens, m: map<nat, Value>)
    requires FaithfulEnv(env) && IsPairEntry(numeric, e) && IsPairMap(numeric, m)
    ensures ReadPairMembers(env, numeric, [Name(PairName(e.kind)), Val(e.value)] + more, PairOf(numeric, m))
         == if e.kind in m then Fail else ReadPairMembers(env, numeric, more, PairOf(numeric, m[e.kind := e.value]))
  {
    Keyword(env, PairNames, e.kind);
    ValuesAreKept(env);
    hide FaithfulEnv;
    var ts := [Name(PairName(e.kind)), Val(e.value)] + more;
    assert ts[1..][1..] == more && env.index(PairNames, ts[0].name) == e.kind;
  }

  lemma {:induction false} PairMembersRead(env: Env, numeric: bool, l: seq<Entry<Value>>, rest: Tokens,
                                           m: map<nat, Value>)
    requires FaithfulEnv(env) && TagOf(rest) == TagClose && IsPairMap(numeric, m)
    requires forall e :: e in l ==> IsPairEntry(numeric, e)
    ensures AddAll(m, l).Some? ==> IsPairMap(numeric, AddAll(m, l).value)
    ensures ReadPairMembers(env, numeric, PrintPairMembers(l) + rest, PairOf(numeric, m))
         == if AddAll(m, l).Some? then Done(PairOf(numeric, AddAll(m, l).value), rest) else Fail
    decreases l
  {
    hide FaithfulEnv, ReadPairMembers, PairOf, PairName;
    if l == [] {
      NoPairMember(env, numeric, rest, PairOf(numeric, m));
      Unit(rest);
    } else {
      Assoc([Name(PairName(l[0].kind)), Val(l[0].value)], PrintPairMembers(l[1..]), rest);
      PairMemberRead(env, numeric, l[0], PrintPairMembers(l[1..]) + rest, m);
      if l[0].kind !in m { PairMembersRead(env, numeric, l[1..], rest, m[l[0].kind := l[0].value]); }
    }
  }

  lemma NoPairMember(env: Env, numeric: bool, rest: Tokens, m: PairMembers)
    requires TagOf(rest) != TagName
    ensures ReadPairMembers(env, numeric, rest, m) == Done(m, rest)
  {
  }

  function ReadPair(env: Env, numeric: bool, ts: Tokens): Outcome<Events>
  {
    if numeric then ReadMetaData(env, ts) else ReadAttribute(env, ts)
  }

  /** With names, both have to be given, and no one twice. */
  ghost predicate PairComplete(p: PairForm)
  {
    p.ByNames? ==> Complete(p.l, 2)
  }

  /** What the storage is told about a pair. */
  ghost predicate TellsPair(numeric: bool, p: PairForm, events: Events)
  {
    match p
    case Inline(name, value) => IsPairValue(numeric, value) && events == PairEvents(numeric, name, value)
    case Tuple(name, value) => IsPairValue(numeric, value) && events == PairEvents(numeric, name, value)
    case ByNames(l) =>
      exists name, value ::
        && Entry(0, Str(name)) in l && Entry(1, value) in l
        && IsPairValue(numeric, value) && events == PairEvents(numeric, name, value)
  }

  /** A pair in any form is read exactly if it is complete. */
  lemma PairRead(env: Env, numeric: bool, p: PairForm, more: Tokens)
    requires FaithfulEnv(env) && PairInRange(numeric, p)
    ensures var r := ReadPair(env, numeric, PrintPair(p) + more);
            && (r.Done? <==> PairComplete(p))
            && (r.Done? ==> r.rest == more && TellsPair(numeric, p, r.value))
    ensures TagOf(PrintPair(p) + more) != TagClose
  {
    match p
    case ByNames(l) => NamedPairRead(env, numeric, l, more);
    case Inline(_, _) =>
      ValuesAreKept(env);
      hide FaithfulEnv;
      assert (PrintPair(p) + more)[1..][1..] == more;
    case Tuple(_, _) =>
      ValuesAreKept(env);
      hide FaithfulEnv;
      var ts := PrintPair(p) + more;
      assert ts[1..][1..][1..] == [Close] + more && ([Close] + more)[1..] == more;
  }

  lemma NamedPairRead(env: Env, numeric: bool, l: seq<Entry<Value>>, more: Tokens)
    requires FaithfulEnv(env) && PairInRange(numeric, ByNames(l))
    ensures var r := ReadPair(env, numeric, PrintPair(ByNames(l)) + more);
            && (r.Done? <==> PairComplete(ByNames(l)))
            && (r.Done? ==> r.rest == more && TellsPair(numeric, ByNames(l), r.value))
  {
    hide FaithfulEnv, ReadPairMembers, PrintPairMembers, PairComplete, TellsPair, AddAll;
    var ts, behind := PrintPair(ByNames(l)) + more, [Close] + more;
    assert ts[0] == Open && ts[1..] == PrintPairMembers(l) + behind && behind[1..] == more;
    PairMembersRead(env, numeric, l, behind, map[]);
    PairIsComplete(numeric, l);
    if l == [] { NothingNamed(env, numeric, behind); } else { PairTag(l, behind); }
  }

  /** What the members of a pair come to. */
  lemma PairIsComplete(numeric: bool, l: seq<Entry<Value>>)
    requires PairInRange(numeric, ByNames(l))
    ensures var all := AddAll(map[], l);
            && (PairComplete(ByNames(l)) <==> all.Some? && 0 in all.value && 1 in all.value)
            && (PairComplete(ByNames(l)) ==>
                  && IsPairEntry(numeric, Entry(0, all.value[0])) && IsPairEntry(numeric, Entry(1, all.value[1]))
                  && TellsPair(numeric, ByNames(l), PairEvents(numeric, all.value[0].s, all.value[1])))
    ensures l == [] ==> !PairComplete(ByNames(l))
  {
    hide Complete;
    CompleteIsAdded(l, 2);
    if PairComplete(ByNames(l)) {
      var all := AddAll(map[], l).value;
      assert Entry(0, all[0]) in l && Entry(1, all[1]) in l;
      assert all[0] == Str(all[0].s);
    }
  }

  lemma PairTag(l: seq<Entry<Value>>, rest: Tokens)
    requires l != []
    ensures TagOf(PrintPairMembers(l) + rest) == TagName
  {
  }

  lemma NothingNamed(env: Env, numeric: bool, behind: Tokens)
    requires TagOf(behind) == TagClose
    ensures ReadPair(env, numeric, [Open] + PrintPairMembers([]) + behind) == Fail
  {
    assert ([Open] + PrintPairMembers([]) + behind)[1..] == behind;
  }

  // ---- terms ----

  datatype TermValue = Text(s: string) | Number(n: nat)

  /** With names: "type" (0), "value" (1) and "pos" (2), and any number of lengths, which are ignored. */
  datatype TermPart = Part(e: Entry<TermValue>) | Length(n: nat)

  /** A term is written as tuple, of which a fourth value is its length, or with names. */
  datatype TermForm = TermTuple(t: Term, length: Option<Value>) | TermByNames(l: seq<TermPart>)

  function TermName(kind: nat): string
  {
    if kind == 0 then "type" else if kind == 1 then "value" else if kind == 2 then "pos" else "len"
  }

  function ValueOf(v: TermValue): Value { if v.Text? then Str(v.s) else Int(v.n) }

  function PrintTermPart(x: TermPart): Tokens
  {
    match x
    case Part(e) => [Name(TermName(e.kind)), Val(ValueOf(e.value))]
    case Length(n) => [Name("len"), Val(Int(n))]
  }

  function PrintTermParts(l: seq<TermPart>): Tokens
  {
    if l == [] then [] else PrintTermPart(l[0]) + PrintTermParts(l[1..])
  }

  function PrintTermForm(t: TermForm): Tokens
  {
    match t
    case TermTuple(t, length) =>
      [Open, Val(Str(t.termType)), Val(Str(t.value)), Val(Int(t.pos))]
      + (if length.Some? then [Val(length.value)] else []) + [Close]
    case TermByNames(l) => [Open] + PrintTermParts(l) + [Close]
  }

  predicate IsTermEntry(e: Entry<TermValue>)
  {
    || (0 <= e.kind <= 1 && e.value.Text?)
    || (e.kind == 2 && e.value.Number? && e.value.n <= UINT_MAX)
  }

  predicate TermPartInRange(x: TermPart)
  {
    match x
    case Part(e) => IsTermEntry(e)
    case Length(n) => n <= UINT_MAX
  }

  predicate TermFormInRange(t: TermForm)
  {
    match t
    case TermTuple(t, _) => t.pos <= UINT_MAX
    case TermByNames(l) => forall x :: x in l ==> TermPartInRange(x)
  }

  /** The members without the lengths. */
  function Entries(l: seq<TermPart>): seq<Entry<TermValue>>
  {
    if l == [] then [] else (if l[0].Part? then [l[0].e] else []) + Entries(l[1..])
  }

  predicate IsTermMap(m: map<nat, TermValue>) { forall k :: k in m ==> IsTermEntry(Entry(k, m[k])) }

  function TermOf(m: map<nat, TermValue>): TermMembers
    requires IsTermMap(m)
  {
    TermMembers(if 0 in m then Some(m[0].s) else None, if 1 in m then Some(m[1].s) else None,
                if 2 in m then Some(m[2].n) else None)
  }

  lemma TermPartRead(env: Env, x: TermPart, more: Tokens, m: map<nat, TermValue>)
    requires FaithfulEnv(env) && TermPartInRange(x) && IsTermMap(m)
    ensures ReadTermMembers(env, PrintTermPart(x) + more, TermOf(m))
         == if x.Length? then ReadTermMembers(env, more, TermOf(m))
            else if x.e.kind in m then Fail
            else ReadTermMembers(env, more, TermOf(m[x.e.kind := x.e.value]))
  {
    Keyword(env, TermNames, if x.Part? then x.e.kind else 3);
    ValuesAreKept(env);
    hide FaithfulEnv;
    var ts := PrintTermPart(x) + more;
    assert ts[1..][1..] == more;
  }

  lemma {:induction false} TermPartsRead(env: Env, l: seq<TermPart>, rest: Tokens, m: map<nat, TermValue>)
    requires FaithfulEnv(env) && TagOf(rest) == TagClose && IsTermMap(m)
    requires forall x :: x in l ==> TermPartInRange(x)
    ensures AddAll(m, Entries(l)).Some? ==> IsTermMap(AddAll(m, Entries(l)).value)
    ensures ReadTermMembers(env, PrintTermParts(l) + rest, TermOf(m))
         == if AddAll(m, Entries(l)).Some? then Done(TermOf(AddAll(m, Entries(l)).value), rest) else Fail
    decreases l
  {
    hide FaithfulEnv, ReadTermMembers, TermOf, PrintTermPart;
    if l == [] {
      NoTermMember(env, rest, TermOf(m));
      Unit(rest);
    } else {
      Assoc(PrintTermPart(l[0]), PrintTermParts(l[1..]), rest);
      TermPartRead(env, l[0], PrintTermParts(l[1..]) + rest, m);
      if l[0].Length? {
        assert Entries(l) == Entries(l[1..]);
        TermPartsRead(env, l[1..], rest, m);
      } else {
        var e := l[0].e;
        assert Entries(l) == [e] + Entries(l[1..]) && Entries(l)[1..] == Entries(l[1..]);
        if e.kind !in m { TermPartsRead(env, l[1..], rest, m[e.kind := e.value]); }
      }
    }
  }

  lemma NoTermMember(env: Env, rest: Tokens, m: TermMembers)
    requires TagOf(rest) != TagName
    ensures ReadTermMembers(env, rest, m) == Done(m, rest)
  {
  }

  lemma {:induction false} EntriesAreParts(l: seq<TermPart>)
    ensures forall e :: e in Entries(l) <==> Part(e) in l
  {
    if l != [] {
      EntriesAreParts(l[1..]);
      assert forall x :: x in l <==> x == l[0] || x in l[1..];
    }
  }

  /** With names, type, value and position have to be given, and no one twice. */
  ghost predicate TermComplete(t: TermForm)
  {
    t.TermByNames? ==> Complete(Entries(t.l), 3)
  }

  /** What the storage is told about a term: nothing if its position is greater than it can hold. */
  ghost predicate TellsTerm(env: Env, t: TermForm, forward: bool, events: Events)
  {
    exists u: Term ::
      && (match t
          case TermTuple(v, _) => u == v
          case TermByNames(l) =>
            Part(Entry(0, Text(u.termType))) in l && Part(Entry(1, Text(u.value))) in l
            && Part(Entry(2, Number(u.pos))) in l)
      && events == if u.pos > env.maxpos then [] else if forward then [AddForwardTerm(u)] else [AddSearchTerm(u)]
  }

  /** What the members of a term come to. */
  lemma TermIsComplete(env: Env, l: seq<TermPart>, forward: bool)
    requires env.maxpos <= INT_MAX && forall x :: x in l ==> TermPartInRange(x)
    ensures var all := AddAll(map[], Entries(l));
            && (TermComplete(TermByNames(l)) <==> all.Some? && 0 in all.value && 1 in all.value && 2 in all.value)
            && (TermComplete(TermByNames(l)) ==>
                  && all.value[0].Text? && all.value[1].Text? && all.value[2].Number?
                  && var u := Term(all.value[0].s, all.value[1].s, all.value[2].n);
                     TellsTerm(env, TermByNames(l), forward, Kept(env, u, forward)))
    ensures l == [] ==> !TermComplete(TermByNames(l))
  {
    hide Complete, AddAll, TellsTerm, Kept, TermPartInRange, IsTermEntry;
    CompleteIsAdded(Entries(l), 3);
    NoEntries(l);
    if TermComplete(TermByNames(l)) { TermIsTold(env, l, forward, AddAll(map[], Entries(l)).value); }
  }

  lemma NoEntries(l: seq<TermPart>)
    ensures l == [] ==> AddAll(map[], Entries(l)) == Some(map[])
  {
  }

  lemma TermIsTold(env: Env, l: seq<TermPart>, forward: bool, m: map<nat, TermValue>)
    requires env.maxpos <= INT_MAX && forall x :: x in l ==> TermPartInRange(x)
    requires 0 in m && 1 in m && 2 in m
    requires Entry(0, m[0]) in Entries(l) && Entry(1, m[1]) in Entries(l) && Entry(2, m[2]) in Entries(l)
    ensures m[0].Text? && m[1].Text? && m[2].Number?
    ensures TellsTerm(env, TermByNames(l), forward, Kept(env, Term(m[0].s, m[1].s, m[2].n), forward))
  {
    hide Entries;
    EntriesAreParts(l);
    assert Part(Entry(0, m[0])) in l && Part(Entry(1, m[1])) in l && Part(Entry(2, m[2])) in l;
    assert TermPartInRange(Part(Entry(0, m[0])));
    assert TermPartInRange(Part(Entry(1, m[1])));
    assert TermPartInRange(Part(Entry(2, m[2])));
    assert m[0] == Text(m[0].s) && m[1] == Text(m[1].s) && m[2] == Number(m[2].n);
  }

  /** A term in any form is read exactly if it is complete. */
  lemma TermFormRead(env: Env, t: TermForm, forward: bool, more: Tokens)
    requires FaithfulEnv(env) && TermFormInRange(t)
    ensures var r := ReadTerm(env, PrintTermForm(t) + more, forward);
            && (r.Done? <==> TermComplete(t))
            && (r.Done? ==> r.rest == more && TellsTerm(env, t, forward, r.value))
    ensures TagOf(PrintTermForm(t) + more) == TagOpen
  {
    assert env.maxpos <= INT_MAX;
    match t
    case TermTuple(_, _) => TupleTermRead(env, t, forward, more);
    case TermByNames(l) => NamedTermRead(env, l, forward, more);
  }

  lemma TupleTermRead(env: Env, t: TermForm, forward: bool, more: Tokens)
    requires FaithfulEnv(env) && t.TermTuple? && TermFormInRange(t) && env.maxpos <= INT_MAX
    ensures var r := ReadTerm(env, PrintTermForm(t) + more, forward);
            r.Done? && r.rest == more && TellsTerm(env, t, forward, r.value)
  {
    ValuesAreKept(env);
    hide FaithfulEnv;
    var ts := PrintTermForm(t) + more;
    var behind := (if t.length.Some? then [Val(t.length.value)] else []) + ([Close] + more);
    assert ts[1..][1..][1..][1..] == behind;
    if t.length.Some? { assert behind[1..] == [Close] + more; } else { assert behind == [Close] + more; }
    assert ([Close] + more)[1..] == more;
  }

  lemma TermUnfolds(env: Env, ts: Tokens, forward: bool, behind: Tokens, m: map<nat, TermValue>)
    requires TagOf(ts) == TagOpen && TagOf(ts[1..]) == TagName && behind != [] && behind[0] == Close && IsTermMap(m)
    requires ReadTermMembers(env, ts[1..], TermOf(map[])) == Done(TermOf(m), behind)
    ensures ReadTerm(env, ts, forward)
         == if 0 in m && 1 in m && 2 in m then Done(Kept(env, Term(m[0].s, m[1].s, m[2].n), forward), behind[1..])
            else Fail
  {
    hide ReadTermMembers, Kept;
    assert TermOf(map[]) == NO_TERM;
  }

  lemma TermFails(env: Env, ts: Tokens, forward: bool)
    requires TagOf(ts) == TagOpen && TagOf(ts[1..]) == TagName
    requires ReadTermMembers(env, ts[1..], TermOf(map[])) == Fail
    ensures ReadTerm(env, ts, forward) == Fail
  {
    hide ReadTermMembers, Kept;
    assert TermOf(map[]) == NO_TERM;
  }

  lemma NamedTermRead(env: Env, l: seq<TermPart>, forward: bool, more: Tokens)
    requires FaithfulEnv(env) && TermFormInRange(TermByNames(l)) && env.maxpos <= INT_MAX
    ensures var r := ReadTerm(env, PrintTermForm(TermByNames(l)) + more, forward);
            && (r.Done? <==> TermComplete(TermByNames(l)))
            && (r.Done? ==> r.rest == more && TellsTerm(env, TermByNames(l), forward, r.value))
  {
    hide FaithfulEnv, ReadTermMembers, PrintTermParts, TermComplete, TellsTerm, AddAll, Kept, ReadTerm, TermOf;
    hide Entries;
    var ts, behind := PrintTermForm(TermByNames(l)) + more, [Close] + more;
    assert ts[0] == Open && ts[1..] == PrintTermParts(l) + behind && behind[1..] == more;
    TermPartsRead(env, l, behind, map[]);
    TermIsComplete(env, l, forward);
    if l == [] {
      assert ts == [Open] + PrintTermParts([]) + behind;
      NothingInTerm(env, forward, behind);
    } else {
      TermTag(l, behind);
      if AddAll(map[], Entries(l)).Some? {
        TermUnfolds(env, ts, forward, behind, AddAll(map[], Entries(l)).value);
      } else {
        TermFails(env, ts, forward);
      }
    }
  }

  lemma TermTag(l: seq<TermPart>, rest: Tokens)
    requires l != []
    ensures TagOf(PrintTermParts(l) + rest) == TagName
  {
  }

  lemma NothingInTerm(env: Env, forward: bool, behind: Tokens)
    requires TagOf(behind) == TagClose
    ensures ReadTerm(env, [Open] + PrintTermParts([]) + behind, forward) == Fail
  {
    assert ([Open] + PrintTermParts([]) + behind)[1..] == behind;
  }

  // ---- structures ----

  datatype StructureValue = Word(s: string) | Between(r: Range)

  /** A structure is written as tuple, or with the names "name" (0), "source" (1) and "sink" (2). */
  datatype StructureForm = StructureTuple(s: Structure) | StructureByNames(l: seq<Entry<StructureValue>>)

  function StructureName(kind: nat): string { if kind == 0 then "name" else if kind == 1 then "source" else "sink" }

  function PrintStructureMember(e: Entry<StructureValue>): Tokens
  {
    [Name(StructureName(e.kind))] + if e.value.Word? then [Val(Str(e.value.s))] else PrintRange(e.value.r)
  }

  function PrintStructureMembers(l: seq<Entry<StructureValue>>): Tokens
  {
    if l == [] then [] else PrintStructureMember(l[0]) + PrintStructureMembers(l[1..])
  }

  function PrintStructureForm(s: StructureForm): Tokens
  {
    match s
    case StructureTuple(s) => PrintStructure(s)
    case StructureByNames(l) => [Open] + PrintStructureMembers(l) + [Close]
  }

  predicate IsStructureEntry(e: Entry<StructureValue>)
  {
    (e.kind == 0 && e.value.Word?) || (1 <= e.kind <= 2 && e.value.Between? && RangeInRange(e.value.r))
  }

  predicate StructureFormInRange(s: StructureForm)
  {
    match s
    case StructureTuple(s) => RangeInRange(s.source) && RangeInRange(s.sink)
    case StructureByNames(l) => forall e :: e in l ==> IsStructureEntry(e)
  }

  predicate IsStructureMap(m: map<nat, StructureValue>) { forall k :: k in m ==> IsStructureEntry(Entry(k, m[k])) }

  function StructureOf(m: map<nat, StructureValue>): StructureMembers
    requires IsStructureMap(m)
  {
    StructureMembers(if 0 in m then Some(m[0].s) else None, if 1 in m then Some(m[1].r) else None,
                     if 2 in m then Some(m[2].r) else None)
  }

  lemma StructureMemberRead(env: Env, e: Entry<StructureValue>, more: Tokens, m: map<nat, StructureValue>)
    requires FaithfulEnv(env) && IsStructureEntry(e) && IsStructureMap(m)
    ensures ReadStructureMembers(env, PrintStructureMember(e) + more, StructureOf(m))
         == if e.kind in m then Fail else ReadStructureMembers(env, more, StructureOf(m[e.kind := e.value]))
  {
    Keyword(env, StructureNames, e.kind);
    ValuesAreKept(env);
    var ts := PrintStructureMember(e) + more;
    if e.value.Word? {
      assert ts[1..][1..] == more;
    } else {
      assert ts[1..] == PrintRange(e.value.r) + more;
      RangeRead(env.cv, e.value.r, more);
    }
    hide FaithfulEnv, Faithful, ReadRange, PrintRange;
  }

  lemma {:induction false} StructureMembersRead(env: Env, l: seq<Entry<StructureValue>>, rest: Tokens,
                                                m: map<nat, StructureValue>)
    requires FaithfulEnv(env) && TagOf(rest) == TagClose && IsStructureMap(m)
    requires forall e :: e in l ==> IsStructureEntry(e)
    ensures AddAll(m, l).Some? ==> IsStructureMap(AddAll(m, l).value)
    ensures ReadStructureMembers(env, PrintStructureMembers(l) + rest, StructureOf(m))
         == if AddAll(m, l).Some? then Done(StructureOf(AddAll(m, l).value), rest) else Fail
    decreases l
  {
    hide FaithfulEnv, ReadStructureMembers, StructureOf, PrintStructureMember;
    if l == [] {
      NoStructureMember(env, rest, StructureOf(m));
      Unit(rest);
    } else {
      Assoc(PrintStructureMember(l[0]), PrintStructureMembers(l[1..]), rest);
      StructureMemberRead(env, l[0], PrintStructureMembers(l[1..]) + rest, m);
      if l[0].kind !in m { StructureMembersRead(env, l[1..], rest, m[l[0].kind := l[0].value]); }
    }
  }

  lemma NoStructureMember(env: Env, rest: Tokens, m: StructureMembers)
    requires TagOf(rest) != TagName
    ensures ReadStructureMembers(env, rest, m) == Done(m, rest)
  {
  }

  ghost predicate StructureComplete(s: StructureForm)
  {
    s.StructureByNames? ==> Complete(s.l, 3)
  }

  /** What the storage is told about a structure: with names, nothing if it ends behind the greatest position. */
  ghost predicate TellsStructure(env: Env, s: StructureForm, events: Events)
  {
    match s
    case StructureTuple(u) => events == [AddStructure(u)]
    case StructureByNames(l) =>
      exists u: Structure ::
        && Entry(0, Word(u.name)) in l && Entry(1, Between(u.source)) in l && Entry(2, Between(u.sink)) in l
        && events == if u.source.end <= env.maxpos && u.sink.end <= env.maxpos then [AddStructure(u)] else []
  }

  lemma StructureIsComplete(env: Env, l: seq<Entry<StructureValue>>)
    requires forall e :: e in l ==> IsStructureEntry(e)
    ensures var all := AddAll(map[], l);
            && (StructureComplete(StructureByNames(l)) <==>
                  all.Some? && 0 in all.value && 1 in all.value && 2 in all.value)
            && (StructureComplete(StructureByNames(l)) ==>
                  && all.value[0].Word? && all.value[1].Between? && all.value[2].Between?
                  && TellsStructure(env, StructureByNames(l),
                                    KeptStructure(env, Structure(all.value[0].s, all.value[1].r, all.value[2].r))))
    ensures l == [] ==> !StructureComplete(StructureByNames(l))
  {
    hide Complete, AddAll, TellsStructure, KeptStructure, IsStructureEntry;
    CompleteIsAdded(l, 3);
    assert l == [] ==> AddAll(map[], l) == Some(map[]) by { NothingAdded(l); }
    if StructureComplete(StructureByNames(l)) { StructureIsTold(env, l, AddAll(map[], l).value); }
  }

  lemma NothingAdded<V>(l: seq<Entry<V>>)
    ensures l == [] ==> AddAll(map[], l) == Some(map[])
  {
  }

  lemma StructureIsTold(env: Env, l: seq<Entry<StructureValue>>, m: map<nat, StructureValue>)
    requires forall e :: e in l ==> IsStructureEntry(e)
    requires 0 in m && 1 in m && 2 in m
    requires Entry(0, m[0]) in l && Entry(1, m[1]) in l && Entry(2, m[2]) in l
    ensures m[0].Word? && m[1].Between? && m[2].Between?
    ensures TellsStructure(env, StructureByNames(l), KeptStructure(env, Structure(m[0].s, m[1].r, m[2].r)))
  {
    assert IsStructureEntry(Entry(0, m[0])) && IsStructureEntry(Entry(1, m[1])) && IsStructureEntry(Entry(2, m[2]));
    hide IsStructureEntry;
    assert m[0] == Word(m[0].s) && m[1] == Between(m[1].r) && m[2] == Between(m[2].r);
  }

  /** A structure in any form is read exactly if it is complete. */
  lemma StructureFormRead(env: Env, s: StructureForm, more: Tokens)
    requires FaithfulEnv(env) && StructureFormInRange(s)
    ensures var r := ReadStructure(env, PrintStructureForm(s) + more);
            && (r.Done? <==> StructureComplete(s))
            && (r.Done? ==> r.rest == more && TellsStructure(env, s, r.value))
    ensures TagOf(PrintStructureForm(s) + more) == TagOpen
  {
    match s
    case StructureTuple(u) => TupleFormRead(env, u, more);
    case StructureByNames(l) => StructureByNamesRead(env, l, more);
  }

  lemma StructureUnfolds(env: Env, ts: Tokens, behind: Tokens, m: map<nat, StructureValue>)
    requires TagOf(ts) == TagOpen && TagOf(ts[1..]) == TagName && IsStructureMap(m)
    requires behind != [] && behind[0] == Close
    requires ReadStructureMembers(env, ts[1..], StructureOf(map[])) == Done(StructureOf(m), behind)
    ensures ReadStructure(env, ts)
         == if 0 in m && 1 in m && 2 in m
            then Done(KeptStructure(env, Structure(m[0].s, m[1].r, m[2].r)), behind[1..])
            else Fail
  {
    hide ReadStructureMembers, KeptStructure;
    assert StructureOf(map[]) == NO_STRUCTURE;
  }

  lemma StructureFails(env: Env, ts: Tokens)
    requires TagOf(ts) == TagOpen && TagOf(ts[1..]) == TagName
    requires ReadStructureMembers(env, ts[1..], StructureOf(map[])) == Fail
    ensures ReadStructure(env, ts) == Fail
  {
    hide ReadStructureMembers, KeptStructure;
    assert StructureOf(map[]) == NO_STRUCTURE;
  }

  lemma StructureByNamesRead(env: Env, l: seq<Entry<StructureValue>>, more: Tokens)
    requires FaithfulEnv(env) && StructureFormInRange(StructureByNames(l))
    ensures var r := ReadStructure(env, PrintStructureForm(StructureByNames(l)) + more);
            && (r.Done? <==> StructureComplete(StructureByNames(l)))
            && (r.Done? ==> r.rest == more && TellsStructure(env, StructureByNames(l), r.value))
  {
    hide FaithfulEnv, ReadStructureMembers, PrintStructureMembers, StructureComplete, TellsStructure, AddAll;
    hide KeptStructure, RangeInRange, ReadStructure, StructureOf;
    var ts, behind := PrintStructureForm(StructureByNames(l)) + more, [Close] + more;
    assert ts[0] == Open && ts[1..] == PrintStructureMembers(l) + behind && behind[1..] == more;
    StructureMembersRead(env, l, behind, map[]);
    StructureIsComplete(env, l);
    if l == [] {
      assert ts == [Open] + PrintStructureMembers([]) + behind;
      NothingInStructure(env, behind);
    } else {
      StructureTag(l, behind);
      if AddAll(map[], l).Some? {
        StructureUnfolds(env, ts, behind, AddAll(map[], l).value);
      } else {
        StructureFails(env, ts);
      }
    }
  }

  lemma StructureTag(l: seq<Entry<StructureValue>>, rest: Tokens)
    requires l != []
    ensures TagOf(PrintStructureMembers(l) + rest) == TagName
  {
  }

  lemma NothingInStructure(env: Env, behind: Tokens)
    requires TagOf(behind) == TagClose
    ensures ReadStructure(env, [Open] + PrintStructureMembers([]) + behind) == Fail
  {
    assert ([Open] + PrintStructureMembers([]) + behind)[1..] == behind;
  }

  // ---- sections ----

  datatype ElementForm = OfPair(pair: PairForm) | OfTerm(term: TermForm) | OfStructure(structure: StructureForm)
                       | OfUser(user: string)

  /** A section is a list of elements; that of the access rights may also be a single user or no value. */
  datatype Content = Elements(l: seq<ElementForm>) | OneUser(user: string) | Nobody

  function PrintElement(e: ElementForm): Tokens
  {
    match e
    case OfPair(pair) => PrintPair(pair)
    case OfTerm(term) => PrintTermForm(term)
    case OfStructure(structure) => PrintStructureForm(structure)
    case OfUser(user) => PrintUser(user)
  }

  function PrintElements(l: seq<ElementForm>): Tokens
  {
    if l == [] then [] else PrintElement(l[0]) + PrintElements(l[1..])
  }

  function PrintContent(c: Content): Tokens
  {
    match c
    case Elements(l) => Section(PrintElements(l))
    case OneUser(user) => PrintUser(user)
    case Nobody => [Val(Void)]
  }

  predicate ElementInRange(kind: Kind, e: ElementForm)
  {
    match kind
    case Attributes => e.OfPair? && PairInRange(false, e.pair)
    case MetaDataKind => e.OfPair? && PairInRange(true, e.pair)
    case ForwardIndex => e.OfTerm? && TermFormInRange(e.term)
    case SearchIndex => e.OfTerm? && TermFormInRange(e.term)
    case Structures => e.OfStructure? && StructureFormInRange(e.structure)
    case AccessRights => e.OfUser?
  }

  predicate ContentInRange(kind: Kind, c: Content)
  {
    if c.Elements? then forall e :: e in c.l ==> ElementInRange(kind, e) else kind.AccessRights?
  }

  ghost predicate ElementComplete(e: ElementForm)
  {
    match e
    case OfPair(pair) => PairComplete(pair)
    case OfTerm(term) => TermComplete(term)
    case OfStructure(structure) => StructureComplete(structure)
    case OfUser(_) => true
  }

  ghost predicate AllComplete(l: seq<ElementForm>) { forall e :: e in l ==> ElementComplete(e) }

  ghost predicate ContentComplete(c: Content) { c.Elements? ==> AllComplete(c.l) }

  ghost predicate TellsElement(env: Env, kind: Kind, e: ElementForm, events: Events)
  {
    match e
    case OfPair(pair) => TellsPair(kind.MetaDataKind?, pair, events)
    case OfTerm(term) => TellsTerm(env, term, kind.ForwardIndex?, events)
    case OfStructure(structure) => TellsStructure(env, structure, events)
    case OfUser(user) => events == [SetAccess(user)]
  }

  /** Element by element, in the order given. */
  ghost predicate TellsElements(env: Env, kind: Kind, l: seq<ElementForm>, events: Events)
  {
    if l == [] then events == []
    else exists first, more ::
           events == first + more && TellsElement(env, kind, l[0], first) && TellsElements(env, kind, l[1..], more)
  }

  ghost predicate TellsContent(env: Env, kind: Kind, c: Content, events: Events)
  {
    match c
    case Elements(l) => TellsElements(env, kind, l, events)
    case OneUser(user) => events == [SetAccess(user)]
    case Nobody => events == []
  }

  lemma ElementRead(env: Env, kind: Kind, e: ElementForm, more: Tokens)
    requires FaithfulEnv(env) && ElementInRange(kind, e)
    ensures var r := ReadElement(env, kind, PrintElement(e) + more);
            && (r.Done? <==> ElementComplete(e))
            && (r.Done? ==> r.rest == more && TellsElement(env, kind, e, r.value))
    ensures TagOf(PrintElement(e) + more) != TagClose
  {
    hide FaithfulEnv, PrintPair, PrintTermForm, PrintStructureForm, PairComplete, TermComplete, StructureComplete;
    hide TellsPair, TellsTerm, TellsStructure, ReadAttribute, ReadMetaData, ReadTerm, ReadStructure, ReadUser;
    hide PairInRange, TermFormInRange, StructureFormInRange;
    match e
    case OfPair(pair) => PairRead(env, kind.MetaDataKind?, pair, more);
    case OfTerm(term) => TermFormRead(env, term, kind.ForwardIndex?, more);
    case OfStructure(structure) => StructureFormRead(env, structure, more);
    case OfUser(user) => OneUserRead(env, user, more);
  }

  lemma OneUserRead(env: Env, user: string, more: Tokens)
    requires FaithfulEnv(env)
    ensures ReadUser(env, PrintUser(user) + more) == Done([SetAccess(user)], more)
  {
    ValuesAreKept(env);
    hide FaithfulEnv;
    assert (PrintUser(user) + more)[1..] == more;
  }

  lemma ElementsUnfold(env: Env, kind: Kind, ts: Tokens)
    requires TagOf(ts) != TagClose
    ensures var e := ReadElement(env, kind, ts);
            ReadElements(env, kind, ts) == (
              if !e.Done? then Fail
              else match ReadElements(env, kind, e.rest)
                   case Done(more, rest) => Done(e.value + more, rest)
                   case _ => Fail)
  {
    hide ReadElement;
  }

  lemma {:induction false} ElementFormsRead(env: Env, kind: Kind, l: seq<ElementForm>, more: Tokens)
    requires FaithfulEnv(env) && forall e :: e in l ==> ElementInRange(kind, e)
    ensures var r := ReadElements(env, kind, PrintElements(l) + ([Close] + more));
            && (r.Done? <==> AllComplete(l))
            && (r.Done? ==> r.rest == [Close] + more && TellsElements(env, kind, l, r.value))
    decreases l
  {
    hide FaithfulEnv, ReadElement, ReadElements, PrintElement, ElementComplete, TellsElement, ElementInRange;
    var behind := [Close] + more;
    if l == [] {
      NoElements(env, kind, behind);
      Unit(behind);
    } else {
      var next := PrintElements(l[1..]) + behind;
      Assoc(PrintElement(l[0]), PrintElements(l[1..]), behind);
      ElementRead(env, kind, l[0], next);
      ElementsUnfold(env, kind, PrintElement(l[0]) + next);
      ElementFormsRead(env, kind, l[1..], more);
      AllCompleteFirst(l);
    }
  }

  lemma NoElements(env: Env, kind: Kind, behind: Tokens)
    requires TagOf(behind) == TagClose
    ensures ReadElements(env, kind, behind) == Done([], behind)
  {
  }

  lemma AllCompleteFirst(l: seq<ElementForm>)
    requires l != []
    ensures AllComplete(l) <==> ElementComplete(l[0]) && AllComplete(l[1..])
  {
    hide ElementComplete;
    assert forall e :: e in l <==> e == l[0] || e in l[1..];
  }

  lemma ContentFormRead(env: Env, kind: Kind, c: Content, more: Tokens)
    requires FaithfulEnv(env) && ContentInRange(kind, c)
    ensures var r := ReadSection(env, kind, PrintContent(c) + more);
            && (r.Done? <==> ContentComplete(c))
            && (r.Done? ==> r.rest == more && TellsContent(env, kind, c, r.value))
  {
    hide FaithfulEnv, ReadElements, PrintElements, AllComplete, TellsElements, ElementInRange, ReadUser;
    var ts := PrintContent(c) + more;
    match c
    case Elements(l) =>
      var behind := [Close] + more;
      assert ts[0] == Open && ts[1..] == PrintElements(l) + behind && behind[1..] == more;
      ElementFormsRead(env, kind, l, more);
    case OneUser(user) => OneUserRead(env, user, more);
    case Nobody => assert ts[1..] == more;
  }

  /** In a document with named sections, a section, or one of the names "docid" and "doctype". */
  datatype SectionForm = Titled(kind: Kind, content: Content) | Identity(docid: bool, text: string)

  function NumberOf(kind: Kind): nat
  {
    match kind
    case Attributes => 2
    case MetaDataKind => 3
    case ForwardIndex => 4
    case SearchIndex => 5
    case Structures => 6
    case AccessRights => 7
  }

  function SectionName(kind: Kind): string
  {
    match kind
    case Attributes => "attribute"
    case MetaDataKind => "metadata"
    case ForwardIndex => "forwardindex"
    case SearchIndex => "searchindex"
    case Structures => "searchstruct"
    case AccessRights => "access"
  }

  function PrintSection(s: SectionForm): Tokens
  {
    match s
    case Titled(kind, content) => [Name(SectionName(kind))] + PrintContent(content)
    case Identity(docid, text) => [Name(if docid then "docid" else "doctype"), Val(Str(text))]
  }

  function PrintSections(l: seq<SectionForm>): Tokens
  {
    if l == [] then [] else PrintSection(l[0]) + PrintSections(l[1..])
  }

  predicate SectionInRange(s: SectionForm) { s.Titled? ==> ContentInRange(s.kind, s.content) }

  ghost predicate SectionComplete(s: SectionForm) { s.Titled? ==> ContentComplete(s.content) }

  ghost predicate TellsSection(env: Env, s: SectionForm, events: Events)
  {
    if s.Titled? then TellsContent(env, s.kind, s.content, events) else events == []
  }

  /** Section by section, in the order given. */
  ghost predicate TellsSections(env: Env, l: seq<SectionForm>, events: Events)
  {
    if l == [] then events == []
    else exists first, more ::
           events == first + more && TellsSection(env, l[0], first) && TellsSections(env, l[1..], more)
  }

  ghost predicate AllSectionsComplete(l: seq<SectionForm>) { forall s :: s in l ==> SectionComplete(s) }

  lemma SectionKeyword(env: Env, s: SectionForm)
    requires FaithfulEnv(env)
    ensures PrintSection(s)[0].Name?
    ensures env.index(SectionNames, PrintSection(s)[0].name)
         == match s case Titled(kind, _) => NumberOf(kind) case Identity(docid, _) => if docid then 0 else 1
  {
    hide FaithfulEnv, PrintContent;
    Keyword(env, SectionNames, if s.Titled? then NumberOf(s.kind) else if s.docid then 0 else 1);
  }

  lemma IdentityRead(env: Env, idx: int, text: string, more: Tokens)
    requires FaithfulEnv(env) && 0 <= idx <= 1
    ensures ReadNamedSection(env, idx, [Val(Str(text))] + more) == Done([], more)
  {
    ValuesAreKept(env);
    hide FaithfulEnv, ReadSection;
    assert ([Val(Str(text))] + more)[1..] == more;
  }

  lemma TitledRead(env: Env, kind: Kind, ts: Tokens)
    ensures ReadNamedSection(env, NumberOf(kind), ts) == ReadSection(env, kind, ts)
  {
    hide ReadSection;
    assert KINDS[NumberOf(kind) - 2] == kind;
  }

  lemma SectionFormRead(env: Env, s: SectionForm, more: Tokens)
    requires FaithfulEnv(env) && SectionInRange(s)
    ensures var ts := PrintSection(s) + more;
            && TagOf(ts) == TagName
            && var r := ReadNamedSection(env, env.index(SectionNames, ts[0].name), ts[1..]);
               && (r.Done? <==> SectionComplete(s))
               && (r.Done? ==> r.rest == more && TellsSection(env, s, r.value))
  {
    hide FaithfulEnv, PrintContent, ContentComplete, TellsContent, ReadNamedSection, ContentInRange, NumberOf;
    SectionKeyword(env, s);
    var ts := PrintSection(s) + more;
    match s
    case Titled(kind, content) =>
      assert ts[1..] == PrintContent(content) + more;
      TitledRead(env, kind, ts[1..]);
      ContentFormRead(env, kind, content, more);
    case Identity(docid, text) =>
      assert ts[1..] == [Val(Str(text))] + more;
      IdentityRead(env, if docid then 0 else 1, text, more);
  }

  lemma SectionsUnfold(env: Env, ts: Tokens)
    requires TagOf(ts) == TagName
    ensures var s := ReadNamedSection(env, env.index(SectionNames, ts[0].name), ts[1..]);
            ReadNamedSections(env, ts) == (if s.Done? then After(s.value, ReadNamedSections(env, s.rest)) else Fail)
  {
    hide ReadNamedSection;
  }

  lemma {:induction false} SectionFormsRead(env: Env, l: seq<SectionForm>)
    requires FaithfulEnv(env) && forall s :: s in l ==> SectionInRange(s)
    ensures var r := ReadNamedSections(env, PrintSections(l));
            && (r.Done? <==> AllSectionsComplete(l))
            && (r.Done? ==> r.rest == [] && TellsSections(env, l, r.value))
    decreases l
  {
    hide FaithfulEnv, ReadNamedSection, ReadNamedSections, PrintSection, SectionComplete, TellsSection, SectionInRange;
    if l == [] {
      NoSections(env);
    } else {
      SectionFormRead(env, l[0], PrintSections(l[1..]));
      SectionsUnfold(env, PrintSections(l));
      SectionFormsRead(env, l[1..]);
      AllSectionsFirst(l);
    }
  }

  lemma NoSections(env: Env)
    ensures ReadNamedSections(env, []) == Done([], [])
  {
  }

  lemma AllSectionsFirst(l: seq<SectionForm>)
    requires l != []
    ensures AllSectionsComplete(l) <==> SectionComplete(l[0]) && AllSectionsComplete(l[1..])
  {
    hide SectionComplete;
    assert forall s :: s in l <==> s == l[0] || s in l[1..];
  }

  /** A document with named sections in any order is inserted exactly if all that is given by name is complete, and
      the storage is told what the sections say in their order. */
  lemma NamedDocumentRead(env: Env, l: seq<SectionForm>)
    requires FaithfulEnv(env) && l != [] && forall s :: s in l ==> SectionInRange(s)
    ensures var r := ReadDocument(env, PrintSections(l));
            && (r.Done? <==> AllSectionsComplete(l))
            && (r.Done? ==> TellsSections(env, l, r.value))
  {
    hide FaithfulEnv, ReadNamedSections, PrintSection, AllSectionsComplete, TellsSections, SectionInRange, ReadSections;
    SectionFormRead(env, l[0], PrintSections(l[1..]));
    SectionFormsRead(env, l);
  }

  // ---- sections in their fixed order ----

  function PrintContents(l: seq<Content>): Tokens
  {
    if l == [] then [] else PrintContent(l[0]) + PrintContents(l[1..])
  }

  ghost predicate AllContentsComplete(l: seq<Content>) { forall c :: c in l ==> ContentComplete(c) }

  /** The k-th section of those from the given one on. */
  predicate ContentsInRange(k: nat, l: seq<Content>)
  {
    forall i :: 0 <= i < |l| && k + i < |KINDS| ==> ContentInRange(KINDS[k + i], l[i])
  }

  ghost predicate TellsContents(env: Env, k: nat, l: seq<Content>, events: Events)
    decreases l
  {
    if l == [] then events == []
    else k < |KINDS| && exists first, more ::
           events == first + more && TellsContent(env, KINDS[k], l[0], first) && TellsContents(env, k + 1, l[1..], more)
  }

  lemma AllContentsFirst(l: seq<Content>)
    requires l != []
    ensures AllContentsComplete(l) <==> ContentComplete(l[0]) && AllContentsComplete(l[1..])
  {
    hide ContentComplete;
    assert forall c :: c in l <==> c == l[0] || c in l[1..];
  }

  lemma ContentIsSome(c: Content, more: Tokens)
    ensures PrintContent(c) + more != []
  {
    assert |PrintContent(c)| >= 1;
  }

  lemma ContentsUnfold(env: Env, k: nat, ts: Tokens)
    requires k <= |KINDS| && ts != []
    ensures ReadSections(env, k, ts)
         == if k == |KINDS| then Fail
            else var s := ReadSection(env, KINDS[k], ts);
                 if !s.Done? then Fail
                 else match ReadSections(env, k + 1, s.rest)
                      case Done(more, rest) => Done(s.value + more, rest)
                      case _ => Fail
  {
    hide ReadSection;
  }

  lemma {:induction false} ContentFormsRead(env: Env, k: nat, l: seq<Content>)
    requires FaithfulEnv(env) && k <= |KINDS| && ContentsInRange(k, l)
    ensures var r := ReadSections(env, k, PrintContents(l));
            && (r.Done? <==> k + |l| <= |KINDS| && AllContentsComplete(l))
            && (r.Done? ==> TellsContents(env, k, l, r.value))
    decreases l
  {
    hide FaithfulEnv, ReadSection, ReadSections, PrintContent, ContentComplete, TellsContent, ContentInRange;
    if l == [] {
      NoContents(env, k);
    } else {
      ContentIsSome(l[0], PrintContents(l[1..]));
      ContentsUnfold(env, k, PrintContents(l));
      AllContentsFirst(l);
      if k < |KINDS| {
        assert ContentInRange(KINDS[k + 0], l[0]);
        ContentFormRead(env, KINDS[k], l[0], PrintContents(l[1..]));
        ContentsBehind(k, l);
        ContentFormsRead(env, k + 1, l[1..]);
      }
    }
  }

  lemma NoContents(env: Env, k: nat)
    requires k <= |KINDS|
    ensures ReadSections(env, k, []) == Done([], [])
  {
  }

  lemma ContentsBehind(k: nat, l: seq<Content>)
    requires l != [] && ContentsInRange(k, l)
    ensures ContentsInRange(k + 1, l[1..])
  {
    hide ContentInRange;
    forall i | 0 <= i < |l[1..]| && k + 1 + i < |KINDS| ensures ContentInRange(KINDS[k + 1 + i], l[1..][i]) {
      assert ContentInRange(KINDS[k + (i + 1)], l[i + 1]);
    }
  }

  /** A list of a document type and sections is inserted exactly if there are not more sections than kinds and all
      that is given by name is complete. */
  lemma ListedDocumentRead(env: Env, docType: string, l: seq<Content>)
    requires FaithfulEnv(env) && ContentsInRange(0, l)
    ensures var r := ReadDocument(env, [Val(Str(docType))] + PrintContents(l));
            && (r.Done? <==> |l| <= |KINDS| && AllContentsComplete(l))
            && (r.Done? ==> TellsContents(env, 0, l, r.value))
  {
    ValuesAreKept(env);
    hide FaithfulEnv, ReadSections, PrintContents, AllContentsComplete, TellsContents, ContentInRange;
    assert ([Val(Str(docType))] + PrintContents(l))[1..] == PrintContents(l);
    ContentFormsRead(env, 0, l);
  }
}
