module RangeForms {

  // Ranges with named members: what is read of them, whatever the order of the names.

  import opened Wrappers
  import opened Serialization
  import SNM = StructureNameMap

  datatype Part = StartIs(start: int) | EndIs(end: int)

  function PrintPart(p: Part): Tokens
  {
    match p
    case StartIs(start) => [Name("start"), Val(Int(start))]
    case EndIs(end) => [Name("end"), Val(Int(end))]
  }

  function PrintParts(l: seq<Part>): Tokens
  {
    if l == [] then [] else PrintPart(l[0]) + PrintParts(l[1..])
  }

  predicate PartInRange(p: Part)
  {
    match p
    case StartIs(start) => INT_MIN <= start <= INT_MAX
    case EndIs(end) => INT_MIN <= end <= INT_MAX
  }

  predicate PartsInRange(l: seq<Part>) { forall p :: p in l ==> PartInRange(p) }

  predicate IsThere(m: RangeMembers, p: Part) { if p.StartIs? then m.start.Some? else m.end.Some? }

  function Added(m: RangeMembers, p: Part): RangeMembers
  {
    match p
    case StartIs(start) => m.(start := Some(start))
    case EndIs(end) => m.(end := Some(end))
  }

  function AllAdded(m: RangeMembers, l: seq<Part>): RangeMembers
    decreases l
  {
    if l == [] then m else AllAdded(Added(m, l[0]), l[1..])
  }

  predicate NewParts(m: RangeMembers, l: seq<Part>)
    decreases l
  {
    l == [] || (!IsThere(m, l[0]) && NewParts(Added(m, l[0]), l[1..]))
  }

  lemma RangeKeywords()
    ensures RangeMember("start") == 0 && RangeMember("end") == 1
  {
    var names := ["start", "end"];
    assert SNM.IsTable(names, ',') && names[0] == "start" && names[1] == "end";
    SNM.NoInfix("end", "start", [0, 0, 0]);
    hide SNM.Infix, SNM.Index, SNM.Join;
    SNM.IndexOfName(names, ',', 0);
    SNM.IndexOfName(names, ',', 1);
  }

  lemma PartRead(cv: Conversions, p: Part, more: Tokens, m: RangeMembers)
    requires Faithful(cv) && PartInRange(p)
    ensures ReadRangeMembers(cv, PrintPart(p) + more, m)
         == if IsThere(m, p) then Fail else ReadRangeMembers(cv, more, Added(m, p))
  {
    RangeKeywords();
    hide RangeMember;
    var ts := PrintPart(p) + more;
    assert ts[1..][1..] == more;
  }

  lemma {:induction false} PartsRead(cv: Conversions, l: seq<Part>, rest: Tokens, m: RangeMembers)
    requires Faithful(cv) && PartsInRange(l) && TagOf(rest) == TagClose
    ensures ReadRangeMembers(cv, PrintParts(l) + rest, m) == if NewParts(m, l) then Done(AllAdded(m, l), rest) else Fail
    decreases l
  {
    if l == [] {
      Unit(rest);
    } else {
      Assoc(PrintPart(l[0]), PrintParts(l[1..]), rest);
      PartRead(cv, l[0], PrintParts(l[1..]) + rest, m);
      hide Faithful, ReadRangeMembers, PrintPart;
      PartsRead(cv, l[1..], rest, Added(m, l[0]));
    }
  }

  ghost predicate Different(l: seq<Part>) { forall i, j :: 0 <= i < j < |l| ==> l[i].StartIs? != l[j].StartIs? }

  lemma DifferentFirst(m: RangeMembers, l: seq<Part>)
    requires l != []
    ensures var next := Added(m, l[0]);
            Different(l) && (forall p :: p in l ==> !IsThere(m, p))
            <==> !IsThere(m, l[0]) && Different(l[1..]) && (forall p :: p in l[1..] ==> !IsThere(next, p))
  {
    var next, rest := Added(m, l[0]), l[1..];
    assert forall p :: p in l <==> p == l[0] || p in rest;
    if Different(l) && forall p :: p in l ==> !IsThere(m, p) {
      forall p | p in rest ensures !IsThere(next, p) {
        var j :| 1 <= j < |l| && l[j] == p;
        assert l[0].StartIs? != l[j].StartIs?;
      }
    }
    if !IsThere(m, l[0]) && Different(rest) && forall p :: p in rest ==> !IsThere(next, p) {
      forall i, j | 0 <= i < j < |l| ensures l[i].StartIs? != l[j].StartIs? {
        assert l[j] == rest[j - 1] && l[j] in rest;
        if i > 0 { assert l[i] == rest[i - 1]; }
      }
    }
  }

  lemma {:induction false} NewIsDifferent(m: RangeMembers, l: seq<Part>)
    ensures NewParts(m, l) <==> Different(l) && forall p :: p in l ==> !IsThere(m, p)
    decreases l
  {
    if l != [] {
      DifferentFirst(m, l);
      NewIsDifferent(Added(m, l[0]), l[1..]);
    }
  }

  /** What has been read is what was given. */
  lemma {:induction false} AllPartsAdded(m: RangeMembers, l: seq<Part>)
    requires NewParts(m, l)
    ensures forall v :: AllAdded(m, l).start == Some(v) <==> m.start == Some(v) || StartIs(v) in l
    ensures forall v :: AllAdded(m, l).end == Some(v) <==> m.end == Some(v) || EndIs(v) in l
    decreases l
  {
    if l != [] {
      var next := Added(m, l[0]);
      AllPartsAdded(next, l[1..]);
      NewIsDifferent(next, l[1..]);
      assert forall p :: p in l <==> p == l[0] || p in l[1..];
    }
  }

  /** A range with named members, in any order, is read exactly if no name occurs twice; start and end are the ones
      given, and what is missing is zero. */
  lemma NamedRangeRead(cv: Conversions, l: seq<Part>, rest: Tokens)
    requires Faithful(cv) && PartsInRange(l) && l != []
    ensures var r := ReadRange(cv, [Open] + PrintParts(l) + ([Close] + rest));
            && !r.Stuck? && (r.Done? <==> Different(l))
            && (r.Done? ==>
                  && r.rest == rest
                  && (StartIs(r.value.start) in l || (r.value.start == 0 && forall p :: p in l ==> !p.StartIs?))
                  && (EndIs(r.value.end) in l || (r.value.end == 0 && forall p :: p in l ==> !p.EndIs?)))
  {
    var none := RangeMembers(None, None);
    NewIsDifferent(none, l);
    if NewParts(none, l) { AllPartsAdded(none, l); }
    BracketsRead(cv, l, rest);
    hide ReadRange, NewParts, AllAdded, Different, PrintParts, Faithful;
    assert forall p :: p in l && p.StartIs? ==> p == StartIs(p.start);
    assert forall p :: p in l && p.EndIs? ==> p == EndIs(p.end);
  }

  lemma BracketsRead(cv: Conversions, l: seq<Part>, rest: Tokens)
    requires Faithful(cv) && PartsInRange(l) && l != []
    ensures ReadRange(cv, [Open] + PrintParts(l) + ([Close] + rest))
         == if NewParts(RangeMembers(None, None), l) then Done(RangeOf(AllAdded(RangeMembers(None, None), l)), rest)
            else Fail
  {
    hide Faithful, NewParts, AllAdded, PrintParts, ReadRangeMembers;
    var ts, behind := [Open] + PrintParts(l) + ([Close] + rest), [Close] + rest;
    assert ts[0] == Open && ts[1..] == PrintParts(l) + behind && behind[1..] == rest;
    FirstIsName(l, behind);
    PartsRead(cv, l, behind, RangeMembers(None, None));
  }

  lemma FirstIsName(l: seq<Part>, behind: Tokens)
    requires l != []
    ensures TagOf(PrintParts(l) + behind) == TagName
  {
  }
}
