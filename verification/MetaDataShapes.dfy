module MetaDataShapes {

  // Restrictions in which conditions may be repeated: what the shape of their code alone decides about their meaning.

  import opened Wrappers
  import opened MetaDataRestriction
  import opened MetaDataExpression
  import opened MetaDataMeaning

  predicate SameKind(a: Instruction, b: Instruction)
  {
    match a
    case Term(_, _) => b.Term?
    case Compare(_) => b.Compare?
    case Boolean(_, _) => b == a
  }

  /** Code that differs in its conditions only. */
  ghost predicate SameShape(p: Program, q: Program)
  {
    |p| == |q| && forall i :: 0 <= i < |p| ==> SameKind(p[i], q[i])
  }

  lemma ShapeBehind(p: Program, q: Program, k: nat)
    requires SameShape(p, q) && k <= |p|
    ensures SameShape(p[k..], q[k..])
  {
  }

  /** Whether code runs, is collected, and how its ORs take their operands, is decided by its shape. */
  lemma {:induction false} ShapeDecides(p: Program, q: Program, height: nat, a: Collected, b: Collected, termc: nat)
    requires SameShape(p, q) && termc <= |a| == |b|
    ensures Runs(p, height) == Runs(q, height) && OrsTakeTheirTerms(p, termc) == OrsTakeTheirTerms(q, termc)
    ensures Collect(p, a, termc).Ok? == Collect(q, b, termc).Ok?
    decreases |p|
  {
    if p != [] {
      assert SameKind(p[0], q[0]);
      match p[0]
      case Term(name, text) =>
        if |p| > 1 {
          assert SameKind(p[1], q[1]);
          ShapeBehind(p, q, 2);
          var c := if p[1].Compare? then [Comparison(p[1].op, name, text, true)] else [];
          var d := if q[1].Compare? then [Comparison(q[1].op, q[0].name, q[0].text, true)] else [];
          if p[1].Compare? {
            ShapeDecides(p[2..], q[2..], height + 1, a + c, b + d, termc + 1);
          } else {
            TermsOnly(p, q, termc);
          }
        }
      case Boolean(isOr, n) =>
        ShapeBehind(p, q, 1);
        var c := if isOr && termc > 1 then Joined(a, termc) else a;
        var d := if isOr && termc > 1 then Joined(b, termc) else b;
        ShapeDecides(p[1..], q[1..], if n <= height then height - n + 1 else 0, c, d, 0);
      case Compare(_) =>
    }
  }

  /** Code without operator behind its first term runs neither way. */
  lemma {:induction false} TermsOnly(p: Program, q: Program, termc: nat)
    requires SameShape(p, q)
    ensures OrsTakeTheirTerms(p, termc) == OrsTakeTheirTerms(q, termc)
    decreases |p|
  {
    if p != [] {
      assert SameKind(p[0], q[0]);
      if p[0].Term? && |p| > 1 {
        ShapeBehind(p, q, 2);
        TermsOnly(p[2..], q[2..], termc + 1);
      } else if p[0].Boolean? {
        ShapeBehind(p, q, 1);
        TermsOnly(p[1..], q[1..], 0);
      }
    }
  }

  function Tag(n: nat): (s: string)
    ensures |s| == n
  {
    seq(n, _ => 'x')
  }

  /** The same code with a different condition at every place. */
  function Tagged(p: Program): (q: Program)
    ensures |q| == |p|
  {
    if p == [] then [] else [if p[0].Term? then Term("", Tag(|p|)) else p[0]] + Tagged(p[1..])
  }

  lemma {:induction false} TaggedAt(p: Program, i: nat)
    requires i < |p|
    ensures Tagged(p)[i] == if p[i].Term? then Term("", Tag(|p| - i)) else p[i]
    decreases i
  {
    if i > 0 { TaggedAt(p[1..], i - 1); }
  }

  lemma {:induction false} TaggedBehind(p: Program, k: nat)
    requires k <= |p|
    ensures Tagged(p)[k..] == Tagged(p[k..])
    decreases k
  {
    if k > 0 {
      TaggedBehind(p[1..], k - 1);
      assert Tagged(p)[k..] == Tagged(p)[1..][k - 1..] && p[k..] == p[1..][k - 1..];
      assert Tagged(p)[1..] == Tagged(p[1..]);
    } else {
      assert Tagged(p)[0..] == Tagged(p) && p[0..] == p;
    }
  }

  lemma TaggedShape(p: Program)
    ensures SameShape(p, Tagged(p)) && (OperatorsHaveOperands(p) ==> OperatorsHaveOperands(Tagged(p)))
  {
    forall i | 0 <= i < |p|
      ensures Tagged(p)[i] == if p[i].Term? then Term("", Tag(|p| - i)) else p[i]
    {
      TaggedAt(p, i);
    }
  }

  lemma {:induction false} TaggedIsDistinct(p: Program)
    ensures DistinctConditions(Tagged(p)) && forall c :: c in ConditionsOf(Tagged(p)) ==> |c.text| <= |p|
    decreases |p|
  {
    if p != [] {
      TaggedIsDistinct(p[1..]);
      TaggedBehind(p, 1);
      TaggedAt(p, 0);
      if |p| > 1 {
        TaggedIsDistinct(p[2..]);
        TaggedBehind(p, 2);
        TaggedAt(p, 1);
      }
    }
  }

  ghost predicate KeepsMeaning(q: Program, sat: Valuation)
  {
    Runs(q, 0) && Collect(q, [], 0).Ok? && SameMeaning(q, sat)
  }

  /** With conditions repeated or not: exactly if every OR takes the conditions in front of it, the groups of all code
      of this shape mean what the code means. */
  lemma ShapeIsExact(p: Program)
    requires Runs(p, 0) && Collect(p, [], 0).Ok? && OperatorsHaveOperands(p)
    ensures OrsTakeTheirTerms(p, 0)
       <==> forall q: Program, sat: Valuation :: SameShape(p, q) ==> KeepsMeaning(q, sat)
  {
    if OrsTakeTheirTerms(p, 0) {
      forall q: Program, sat: Valuation | SameShape(p, q) ensures KeepsMeaning(q, sat) {
        ShapeDecides(p, q, 0, [], [], 0);
        RestrictionMeaning(q, sat);
      }
    } else {
      var q := Tagged(p);
      TaggedShape(p);
      TaggedIsDistinct(p);
      ShapeDecides(p, q, 0, [], [], 0);
      MeaningIsExact(q);
      var sat: Valuation :| !SameMeaning(q, sat);
      assert SameShape(p, q) && !KeepsMeaning(q, sat);
    }
  }

  /** Operators without operands are constants; an OR may take one without any effect on the meaning. */
  lemma ConstantOperand(c: Condition, sat: Valuation)
    ensures var p := CodeOf(c) + [Boolean(true, 0), Boolean(true, 2)];
            KeepsMeaning(p, sat) && !OrsTakeTheirTerms(p, 0)
  {
    var ors, last: Program := [Boolean(true, 0), Boolean(true, 2)], [Boolean(true, 2)];
    var p := CodeOf(c) + ors;
    var f := Comparison(c.op, c.name, c.text, true);
    assert p[2..] == ors && ors[1..] == last && last[1..] == [];
    assert [] + [f] == [f] && Collect(last, [f], 0) == Ok([f]) && Collect(ors, [f], 1) == Collect(last, [f], 0);
    LastOr(sat(c), ors, last, sat);
    assert [] + [sat(c)] == [sat(c)] && Eval(p, sat, []) == Eval(ors, sat, [sat(c)]);
    AllOne(sat(c));
    assert Condition(f.op, f.name, f.value) == c && [f][..0] == [];
    assert Cnf([f], sat, false) <==> sat(c);
    assert Collect(p, [], 0) == Ok([f]) && Eval(p, sat, []) == Some([sat(c)]);
    RunsEvaluate(p, sat, []);
  }

  lemma LastOr(b: bool, ors: Program, last: Program, sat: Valuation)
    requires ors == [Boolean(true, 0), Boolean(true, 2)] && last == [Boolean(true, 2)]
    ensures Eval(ors, sat, [b]) == Some([b])
  {
    var none: seq<bool>, two := [], [b, false];
    assert [b][..1] == [b] && [b][1..] == none && !Any(none) && [b] + [Any(none)] == two;
    assert ors[1..] == last && last[1..] == [];
    assert Eval(ors, sat, [b]) == Eval(last, sat, two);
    assert two[..0] == [] && two[0..] == two;
    assert two[0] == b;
    assert Any(two) <==> b;
    assert none + [Any(two)] == [b];
    assert Eval(last, sat, two) == Eval(last[1..], sat, none + [Any(two)]);
  }
}
