module MetaDataErrors {

  // Which code cannot be collected into groups, and with which error.

  import opened Wrappers
  import opened MetaDataRestriction
  import opened MetaDataExpression

  /** Among the first n instructions every term has its comparison directly behind it, and every comparison its term
      in front. */
  predicate Paired(p: Program, n: nat)
    requires n <= |p|
  {
    && (forall i :: 0 <= i < n && p[i].Term? ==> i + 1 < n && p[i + 1].Compare?)
    && (forall i :: 0 <= i < n && p[i].Compare? ==> i > 0 && p[i - 1].Term?)
  }

  /** Number of comparisons in front of a position, back to the last boolean operator. */
  function Conditions(p: Program, i: nat): nat
    requires i <= |p|
  {
    if i == 0 || p[i - 1].Boolean? then 0
    else (if p[i - 1].Compare? then 1 else 0) + Conditions(p, i - 1)
  }

  /** Up to the position the code is in order, and there is an OR behind several conditions that takes fewer. */
  predicate TakesTooFew(p: Program, i: nat)
  {
    && i < |p| && Paired(p, i) && p[i].Boolean? && p[i].isOr
    && 1 < Conditions(p, i) && p[i].nofOperands < Conditions(p, i)
  }

  /** Collecting from a position on. */
  lemma {:induction false} CollectFrom(p: Program, i: nat, list: Collected)
    requires i <= |p| && Paired(p, i) && Conditions(p, i) <= |list|
    requires forall k: nat :: TakesTooFew(p, k) ==> k >= i
    ensures var r := Collect(p[i..], list, Conditions(p, i));
            && (r.Ok? <==> Paired(p, |p|) && forall k: nat :: !TakesTooFew(p, k))
            && (r == Err(NofArgsError) <==> exists k: nat :: TakesTooFew(p, k))
    decreases |p| - i
  {
    hide TakesTooFew, Paired, Conditions, Collect, Joined;
    if i == |p| {
      assert p[i..] == [];
      NothingLeft(p, list);
    } else {
      CollectStep(p, i, list);
      match p[i]
      case Term(name, text) =>
        if i + 1 < |p| && p[i + 1].Compare? {
          ConditionAt(p, i);
          CollectFrom(p, i + 2, list + [Comparison(p[i + 1].op, name, text, true)]);
        } else {
          Broken(p, i);
        }
      case Compare(_) => Broken(p, i);
      case Boolean(isOr, n) =>
        BooleanAt(p, i);
        if !TakesTooFew(p, i) {
          CollectFrom(p, i + 1, if isOr && Conditions(p, i) > 1 then Joined(list, Conditions(p, i)) else list);
        }
    }
  }

  lemma NothingLeft(p: Program, list: Collected)
    ensures forall termc: nat :: termc <= |list| ==> Collect([], list, termc) == Ok(list)
    ensures forall k: nat :: TakesTooFew(p, k) ==> k < |p|
  {
  }

  lemma CollectStep(p: Program, i: nat, list: Collected)
    requires i < |p| && Conditions(p, i) <= |list|
    ensures var termc := Conditions(p, i);
            Collect(p[i..], list, termc) == (
              match p[i]
              case Term(name, text) =>
                if i + 1 < |p| && p[i + 1].Compare?
                then Collect(p[i + 2..], list + [Comparison(p[i + 1].op, name, text, true)], termc + 1)
                else Err(TypeError)
              case Boolean(isOr, n) =>
                if isOr && termc > 1 then
                  if termc > n then Err(NofArgsError) else Collect(p[i + 1..], Joined(list, termc), 0)
                else Collect(p[i + 1..], list, 0)
              case Compare(_) => Err(TypeError))
  {
    hide Conditions, Joined;
    var rest := p[i..];
    assert rest[0] == p[i] && rest[1..] == p[i + 1..];
    if i + 1 < |p| { assert rest[1] == p[i + 1] && rest[2..] == p[i + 2..]; }
  }

  lemma ConditionAt(p: Program, i: nat)
    requires i + 1 < |p| && Paired(p, i) && p[i].Term? && p[i + 1].Compare?
    ensures Paired(p, i + 2) && Conditions(p, i + 2) == Conditions(p, i) + 1
    ensures !TakesTooFew(p, i) && !TakesTooFew(p, i + 1)
  {
    assert Conditions(p, i + 2) == 1 + Conditions(p, i + 1) == 1 + Conditions(p, i);
  }

  lemma BooleanAt(p: Program, i: nat)
    requires i < |p| && Paired(p, i) && p[i].Boolean?
    ensures Paired(p, i + 1) && Conditions(p, i + 1) == 0
    ensures TakesTooFew(p, i) <==> p[i].isOr && 1 < Conditions(p, i) && p[i].nofOperands < Conditions(p, i)
  {
  }

  lemma Broken(p: Program, i: nat)
    requires i < |p| && Paired(p, i) && forall k: nat :: TakesTooFew(p, k) ==> k >= i
    requires p[i].Compare? || (p[i].Term? && !(i + 1 < |p| && p[i + 1].Compare?))
    ensures !Paired(p, |p|) && forall k: nat :: !TakesTooFew(p, k)
  {
    assert p[i].Compare? && i > 0 ==> !p[i - 1].Term?;
  }

  /** Code is collected exactly if terms and comparisons come in pairs and each OR takes all conditions in front of it.
      A break of the pairs is a type error, unless an OR before it takes too few. */
  lemma ErrorsAreExact(p: Program)
    ensures var r := Collect(p, [], 0);
            && (r.Ok? <==> Paired(p, |p|) && forall k: nat :: !TakesTooFew(p, k))
            && (r == Err(NofArgsError) <==> exists k: nat :: TakesTooFew(p, k))
            && (r == Err(TypeError) <==> !Paired(p, |p|) && forall k: nat :: !TakesTooFew(p, k))
  {
    assert p[0..] == p;
    CollectFrom(p, 0, []);
    match Collect(p, [], 0)
    case Ok(_) =>
    case Err(TypeError) =>
    case Err(NofArgsError) =>
  }
}
