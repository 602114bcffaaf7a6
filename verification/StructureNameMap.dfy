/** The table of member names, kept in one delimiter-separated string. */
module StructureNameMap {

  // A name is looked up as the first occurrence of the text, and it is found if that occurrence ends where an
  // entry ends.

  import opened Wrappers

  const UNDEFINED: int := -1
  const MAX_NAMES: nat := 127

  /** Position of the first delimiter from a position on, or the length of the text. */
  function EntryEnd(text: string, delim: char, start: nat): (p: nat)
    requires start <= |text|
    ensures start <= p <= |text|
    ensures p < |text| ==> text[p] == delim
    decreases |text| - start
  {
    if start == |text| || text[start] == delim then start else EntryEnd(text, delim, start + 1)
  }

  /** Number of delimiters before a position. */
  function Count(text: string, delim: char, p: nat): nat
    requires p <= |text|
    decreases p
  {
    if p == 0 then 0 else Count(text, delim, p - 1) + (if text[p - 1] == delim then 1 else 0)
  }

  /** Content of the end table at a position: the number of the entry that ends there. */
  function EndsEntry(text: string, delim: char, p: nat): int
    requires p <= |text|
  {
    if p == |text| || text[p] == delim then Count(text, delim, p) else UNDEFINED
  }

  predicate OccursAt(text: string, id: string, p: nat) {
    p + |id| <= |text| && text[p..p + |id|] == id
  }

  /** The position of the first occurrence from a position on. */
  function Find(text: string, id: string, start: nat): (r: Option<nat>)
    requires start <= |text|
    ensures r.Some? ==> start <= r.value && OccursAt(text, id, r.value)
    ensures forall p :: start <= p && (r.Some? ==> p < r.value) ==> !OccursAt(text, id, p)
    decreases |text| - start
  {
    if OccursAt(text, id, start) then Some(start)
    else if start == |text| then None
    else Find(text, id, start + 1)
  }

  function FirstOccurrence(text: string, id: string): Option<nat> { Find(text, id, 0) }

  /** The lookup of a name. */
  function Index(text: string, delim: char, id: string): int
  {
    match FirstOccurrence(text, id)
    case None => UNDEFINED
    case Some(p) => EndsEntry(text, delim, p + |id|)
  }

  /** The table of some names. */
  function Join(names: seq<string>, delim: char): string
    requires |names| > 0
  {
    if |names| == 1 then names[0] else names[0] + ([delim] + Join(names[1..], delim))
  }

  // ---- what the lookup finds ----

  ghost predicate Infix(id: string, text: string) {
    exists p: nat :: OccursAt(text, id, p)
  }

  /** A text that differs from every part of its length, at the given places, does not occur. */
  lemma NoInfix(id: string, text: string, diff: seq<nat>)
    requires |text| < |id| + |diff|
    requires forall p :: 0 <= p < |diff| && p + |id| <= |text| ==> diff[p] < |id| && text[p + diff[p]] != id[diff[p]]
    ensures !Infix(id, text)
  {
    forall p: nat | p + |id| <= |text| ensures !OccursAt(text, id, p) {
      assert text[p..p + |id|][diff[p]] == text[p + diff[p]];
    }
  }

  lemma OccursBehind(head: string, tail: string, id: string, p: nat)
    ensures OccursAt(head + tail, id, |head| + p) <==> OccursAt(tail, id, p)
  {
    if p + |id| <= |tail| { assert (head + tail)[|head| + p..|head| + p + |id|] == tail[p..p + |id|]; }
  }

  lemma OccursBefore(head: string, tail: string, id: string, p: nat)
    requires p + |id| <= |head|
    ensures OccursAt(head + tail, id, p) <==> OccursAt(head, id, p)
  {
    assert (head + tail)[p..p + |id|] == head[p..p + |id|];
  }

  /** No occurrence of a delimiter-free text crosses a delimiter. */
  lemma NotAcross(head: string, tail: string, delim: char, id: string, p: nat)
    requires delim !in id && p <= |head| < p + |id|
    ensures !OccursAt(head + ([delim] + tail), id, p)
  {
    var text := head + ([delim] + tail);
    assert p + |id| <= |text| ==> text[p..p + |id|][|head| - p] == delim;
  }

  lemma NotInHead(head: string, tail: string, delim: char, id: string)
    requires delim !in id && id != "" && !Infix(id, head)
    ensures forall p: nat :: p <= |head| ==> !OccursAt(head + ([delim] + tail), id, p)
  {
    forall p: nat | p <= |head| ensures !OccursAt(head + ([delim] + tail), id, p) {
      if p + |id| <= |head| { OccursBefore(head, [delim] + tail, id, p); } else { NotAcross(head, tail, delim, id, p); }
    }
  }

  /** Stepping over a first entry in which the name does not occur. */
  lemma SkipEntry(head: string, tail: string, delim: char, id: string)
    requires delim !in id && id != "" && !Infix(id, head)
    ensures match FirstOccurrence(tail, id)
            case None => FirstOccurrence(head + ([delim] + tail), id).None?
            case Some(p) => FirstOccurrence(head + ([delim] + tail), id) == Some(|head| + 1 + p)
  {
    NotInHead(head, tail, delim, id);
    var start := head + [delim];
    assert start + tail == head + ([delim] + tail);
    var r, q := FirstOccurrence(start + tail, id), FirstOccurrence(tail, id);
    if r.Some? { OccursBehind(start, tail, id, r.value - |start|); }
    if q.Some? {
      OccursBehind(start, tail, id, q.value);
    }
  }

  lemma {:induction false} CountBehind(head: string, tail: string, delim: char, p: nat)
    requires p <= |tail|
    ensures Count(head + ([delim] + tail), delim, |head| + 1 + p)
         == Count(head + ([delim] + tail), delim, |head|) + 1 + Count(tail, delim, p)
    decreases p
  {
    if p > 0 {
      assert (head + ([delim] + tail))[|head| + 1 + p - 1] == tail[p - 1];
      CountBehind(head, tail, delim, p - 1);
    } else {
      assert (head + ([delim] + tail))[|head|] == delim;
    }
  }

  lemma {:induction false} NoDelimiter(text: string, delim: char, p: nat)
    requires p <= |text| && forall q :: 0 <= q < p ==> text[q] != delim
    ensures Count(text, delim, p) == 0
    decreases p
  {
    if p > 0 { NoDelimiter(text, delim, p - 1); }
  }

  lemma EndsLaterEntry(head: string, tail: string, delim: char, p: nat)
    requires delim !in head && p <= |tail|
    ensures var e := EndsEntry(tail, delim, p);
            EndsEntry(head + ([delim] + tail), delim, |head| + 1 + p) == if e == UNDEFINED then UNDEFINED else e + 1
  {
    var text := head + ([delim] + tail);
    assert forall q :: 0 <= q < |head| ==> text[q] == head[q];
    NoDelimiter(text, delim, |head|);
    CountBehind(head, tail, delim, p);
  }

  ghost predicate IsTable(names: seq<string>, delim: char) {
    |names| > 0 && forall i :: 0 <= i < |names| ==> delim !in names[i] && names[i] != ""
  }

  /** A lookup that passes the first entry. */
  lemma IndexSkips(head: string, tail: string, delim: char, id: string)
    requires delim !in id && id != "" && delim !in head && !Infix(id, head)
    ensures var i := Index(tail, delim, id);
            Index(head + ([delim] + tail), delim, id) == if i == UNDEFINED then UNDEFINED else i + 1
  {
    SkipEntry(head, tail, delim, id);
    if FirstOccurrence(tail, id).Some? {
      EndsLaterEntry(head, tail, delim, FirstOccurrence(tail, id).value + |id|);
    }
  }

  /** A lookup that stops within the first entry finds this entry, and only with one of its suffixes. */
  lemma IndexStops(head: string, rest: string, delim: char, id: string)
    requires delim !in head && Infix(id, head) && (rest == "" || rest[0] == delim)
    ensures FirstOccurrence(head, id).Some?
    ensures Index(head + rest, delim, id) == if FirstOccurrence(head, id).value + |id| == |head| then 0 else UNDEFINED
  {
    FirstInHead(head, rest, id);
    var end := FirstOccurrence(head, id).value + |id|;
    assert forall p :: 0 <= p < |head| ==> (head + rest)[p] == head[p];
    NoDelimiter(head + rest, delim, end);
  }

  lemma FirstInHead(head: string, rest: string, id: string)
    requires Infix(id, head)
    ensures FirstOccurrence(head, id).Some? && FirstOccurrence(head + rest, id) == FirstOccurrence(head, id)
  {
    var p: nat :| OccursAt(head, id, p);
    var q, r := FirstOccurrence(head, id).value, FirstOccurrence(head + rest, id);
    OccursBefore(head, rest, id, q);
    if r.Some? && r.value < q { OccursBefore(head, rest, id, r.value); }
  }

  lemma JoinStep(names: seq<string>, delim: char)
    requires |names| > 0
    ensures Join(names, delim) == names[0] + if |names| == 1 then "" else [delim] + Join(names[1..], delim)
  {
  }

  /** A name that does not occur within an earlier entry is found under its own number. */
  lemma {:induction false} IndexOfName(names: seq<string>, delim: char, i: nat)
    requires IsTable(names, delim) && i < |names|
    requires forall j :: 0 <= j < i ==> !Infix(names[i], names[j])
    ensures Index(Join(names, delim), delim, names[i]) == i
  {
    var id := names[i];
    JoinStep(names, delim);
    if i == 0 {
      assert id[0..|id|] == id;
      assert OccursAt(id, id, 0);
      IndexStops(id, if |names| == 1 then "" else [delim] + Join(names[1..], delim), delim, id);
    } else {
      IndexOfName(names[1..], delim, i - 1);
      IndexSkips(names[0], Join(names[1..], delim), delim, id);
    }
  }

  /** And exactly then: an earlier entry that contains the name takes the lookup away from it. */
  lemma {:induction false} IndexIsExact(names: seq<string>, delim: char, i: nat)
    requires IsTable(names, delim) && i < |names|
    ensures Index(Join(names, delim), delim, names[i]) == i <==> forall j :: 0 <= j < i ==> !Infix(names[i], names[j])
  {
    hide Index, Infix, FirstOccurrence, Join;
    var id := names[i];
    if forall j :: 0 <= j < i ==> !Infix(id, names[j]) {
      IndexOfName(names, delim, i);
    } else {
      JoinStep(names, delim);
      if Infix(id, names[0]) {
        IndexStops(names[0], if |names| == 1 then "" else [delim] + Join(names[1..], delim), delim, id);
      } else {
        IndexIsExact(names[1..], delim, i - 1);
        IndexSkips(names[0], Join(names[1..], delim), delim, id);
        var j :| 0 <= j < i && Infix(id, names[j]);
        assert names[1..][j - 1] == names[j];
      }
    }
  }

  /** No name occurs in an earlier one. */
  ghost predicate NoneInEarlier(names: seq<string>) {
    forall i, j :: 0 <= j < i < |names| ==> !Infix(names[i], names[j])
  }

  /** Then all names have their numbers. */
  lemma AllNamesFound(names: seq<string>, delim: char)
    requires IsTable(names, delim) && NoneInEarlier(names)
    ensures forall i :: 0 <= i < |names| ==> Index(Join(names, delim), delim, names[i]) == i
  {
    hide Index, Infix, Join;
    forall i | 0 <= i < |names| ensures Index(Join(names, delim), delim, names[i]) == i {
      IndexOfName(names, delim, i);
    }
  }

  ghost predicate IsSuffix(id: string, name: string) {
    |id| <= |name| && name[|name| - |id|..] == id
  }

  /** What the lookup accepts besides the names: a delimiter-free text with a number is the end of the entry
      with this number. */
  lemma {:induction false} IndexIsSuffix(names: seq<string>, delim: char, id: string)
    requires IsTable(names, delim) && delim !in id && id != ""
    ensures var i := Index(Join(names, delim), delim, id);
            i == UNDEFINED || (0 <= i < |names| && IsSuffix(id, names[i]))
  {
    var head := names[0];
    JoinStep(names, delim);
    if Infix(id, head) {
      IndexStops(head, if |names| == 1 then "" else [delim] + Join(names[1..], delim), delim, id);
    } else if |names| == 1 {
      assert head + "" == head;
    } else {
      IndexIsSuffix(names[1..], delim, id);
      IndexSkips(head, Join(names[1..], delim), delim, id);
    }
  }

  /** The names with a delimiter behind each. */
  function Prefixed(names: seq<string>, delim: char): string {
    if names == [] then "" else names[0] + ([delim] + Prefixed(names[1..], delim))
  }

  lemma {:induction false} PrefixedAppend(names: seq<string>, last: string, delim: char)
    ensures Prefixed(names + [last], delim) == Prefixed(names, delim) + (last + [delim])
    ensures Join(names + [last], delim) == Prefixed(names, delim) + last
  {
    if names == [] {
      assert [last][1..] == [];
      Unit(last);
      Unit([delim]);
    } else {
      assert (names + [last])[1..] == names[1..] + [last];
      PrefixedAppend(names[1..], last, delim);
      var rest := Prefixed(names[1..], delim);
      Assoc([delim], rest, last + [delim]);
      Assoc([delim], rest, last);
      Assoc(names[0], [delim] + rest, last + [delim]);
      Assoc(names[0], [delim] + rest, last);
    }
  }

  // ---- the table object ----

  lemma {:induction false} EntryHasNoDelimiter(text: string, delim: char, start: nat)
    requires start <= |text|
    ensures var e := EntryEnd(text, delim, start);
            Count(text, delim, e) == Count(text, delim, start) && forall q :: start <= q < e ==> text[q] != delim
    decreases |text| - start
  {
    if start < |text| && text[start] != delim { EntryHasNoDelimiter(text, delim, start + 1); }
  }

  lemma {:induction false} CountMono(text: string, delim: char, p: nat, q: nat)
    requires p <= q <= |text|
    ensures Count(text, delim, p) <= Count(text, delim, q)
    decreases q
  {
    if p < q { CountMono(text, delim, p, q - 1); }
  }

  /** The names are the entries before a position. */
  ghost predicate EntriesUpTo(text: string, delim: char, names: seq<string>, p: nat)
    requires p <= |text|
  {
    Prefixed(names, delim) == text[..p] && forall i :: 0 <= i < |names| ==> delim !in names[i]
  }

  lemma EntriesGrow(text: string, delim: char, names: seq<string>, p: nat)
    requires p <= |text| && EntriesUpTo(text, delim, names, p)
    ensures var q := EntryEnd(text, delim, p);
            var grown := names + [text[p..q]];
            (forall i :: 0 <= i < |grown| ==> delim !in grown[i])
            && if q < |text| then EntriesUpTo(text, delim, grown, q + 1) else Join(grown, delim) == text
  {
    var q := EntryEnd(text, delim, p);
    EntryHasNoDelimiter(text, delim, p);
    PrefixedAppend(names, text[p..q], delim);
    if q < |text| {
      assert text[..q + 1] == text[..p] + (text[p..q] + [delim]);
    } else {
      assert text == text[..p] + text[p..q];
    }
  }

  /** The end table is filled before a position and undefined from there on. */
  ghost predicate TableUpTo(text: string, delim: char, table: seq<int>, p: nat)
    requires |table| == |text| + 1
  {
    forall q :: 0 <= q <= |text| ==> table[q] == if q < p then EndsEntry(text, delim, q) else UNDEFINED
  }

  lemma TableGrows(text: string, delim: char, table: seq<int>, p: nat)
    requires |table| == |text| + 1 && p <= |text| && TableUpTo(text, delim, table, p)
    ensures var q := EntryEnd(text, delim, p);
            TableUpTo(text, delim, table[q := Count(text, delim, p)], q + 1)
  {
    EntryHasNoDelimiter(text, delim, p);
  }

  class NameMap {
    const strings: string
    const delim: char
    const ar: array<int>
    var names: seq<string>

    /** The end table holds the entry numbers, and the names are the entries of the table. */
    ghost predicate Valid()
      reads this, ar
    {
      && ar.Length == |strings| + 1
      && (forall p :: 0 <= p <= |strings| ==> ar[p] == EndsEntry(strings, delim, p))
      && |names| > 0 && (forall i :: 0 <= i < |names| ==> delim !in names[i]) && Join(names, delim) == strings
    }

    constructor (strings: string, delim: char)
      ensures this.strings == strings && this.delim == delim
      ensures ar.Length == |strings| + 1 && fresh(ar) && names == []
      ensures forall p :: 0 <= p <= |strings| ==> ar[p] == UNDEFINED
    {
      this.strings := strings;
      this.delim := delim;
      ar := new int[|strings| + 1](_ => UNDEFINED);
      names := [];
    }

    /** The rest of the construction; it fails for tables with too many entries. */
    method Fill() returns (ok: bool)
      requires ar.Length == |strings| + 1 && names == []
      requires forall p :: 0 <= p <= |strings| ==> ar[p] == UNDEFINED
      modifies `names, ar
      ensures ok <==> Count(strings, delim, |strings|) < MAX_NAMES
      ensures ok ==> Valid()
    {
      var si := 0;
      var sn := EntryEnd(strings, delim, 0);
      var idx := 0;
      while sn < |strings|
        invariant 0 <= si <= sn <= |strings| && sn == EntryEnd(strings, delim, si)
        invariant idx == Count(strings, delim, si) < MAX_NAMES
        invariant EntriesUpTo(strings, delim, names, si)
        invariant TableUpTo(strings, delim, ar[..], si)
        decreases |strings| - si
      {
        EntryHasNoDelimiter(strings, delim, si);
        CountMono(strings, delim, sn + 1, |strings|);
        AddEntry(si, sn, idx);
        idx := idx + 1;
        if idx >= MAX_NAMES { return false; }
        si := sn + 1;
        sn := EntryEnd(strings, delim, si);
      }
      EntryHasNoDelimiter(strings, delim, si);
      AddEntry(si, sn, idx);
      assert forall p :: 0 <= p <= |strings| ==> ar[p] == ar[..][p];
      return true;
    }

    /** Puts one entry into the names and its number into the table. */
    method AddEntry(si: nat, sn: nat, idx: nat)
      requires ar.Length == |strings| + 1 && si <= |strings| && sn == EntryEnd(strings, delim, si)
      requires idx == Count(strings, delim, si)
      requires EntriesUpTo(strings, delim, names, si) && TableUpTo(strings, delim, ar[..], si)
      modifies `names, ar
      ensures names == old(names) + [strings[si..sn]] && TableUpTo(strings, delim, ar[..], sn + 1)
      ensures forall i :: 0 <= i < |names| ==> delim !in names[i]
      ensures if sn < |strings| then EntriesUpTo(strings, delim, names, sn + 1) else Join(names, delim) == strings
    {
      EntriesGrow(strings, delim, names, si);
      TableGrows(strings, delim, ar[..], si);
      names := names + [strings[si..sn]];
      ar[sn] := idx;
      assert ar[..] == old(ar[..])[sn := idx];
    }

    /** The number of a name. */
    method Lookup(id: string) returns (i: int)
      requires Valid()
      ensures i == Index(strings, delim, id)
    {
      var pi := FirstOccurrence(strings, id);
      if pi.Some? { i := ar[pi.value + |id|]; } else { i := UNDEFINED; }
    }

    /** The name with a number. */
    method Name(idx: int) returns (name: Option<string>)
      requires Valid()
      ensures name == if 0 <= idx < |names| then Some(names[idx]) else None
    {
      if idx < 0 || |names| <= idx { return None; }
      return Some(names[idx]);
    }
  }
}
