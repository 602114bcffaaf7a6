/** What a restriction means, as postfix code and as a conjunction of groups. */
module MetaDataMeaning {
  import opened Wrappers
  import opened MetaDataRestriction
  import opened MetaDataExpression

  type Valuation = Condition -> bool

  ghost predicate All(s: seq<bool>) { forall i :: 0 <= i < |s| ==> s[i] }

  ghost predicate Any(s: seq<bool>) { exists i :: 0 <= i < |s| && s[i] }

  /** The stack that postfix code leaves; none if it underflows or is not well-formed. */
  ghost function Eval(p: Program, sat: Valuation, stack: seq<bool>): Option<seq<bool>>
    decreases |p|
  {
    if p == [] then Some(stack)
    else match p[0]
         case Term(name, text) =>
           if |p| > 1 && p[1].Compare?
           then Eval(p[2..], sat, stack + [sat(Condition(p[1].op, name, text))])
           else None
         case Boolean(isOr, n) =>
           if n > |stack| then None
           else
             var base, args := stack[..|stack| - n], stack[|stack| - n..];
             Eval(p[1..], sat, base + [if isOr then Any(args) else All(args)])
         case Compare(_) => None
  }

  /** Whether postfix code is well-formed and never takes more operands than there are. */
  predicate Runs(p: Program, height: nat)
    decreases |p|
  {
    if p == [] then true
    else match p[0]
         case Term(_, _) => |p| > 1 && p[1].Compare? && Runs(p[2..], height + 1)
         case Boolean(_, n) => n <= height && Runs(p[1..], height - n + 1)
         case Compare(_) => false
  }

  lemma {:induction false} RunsEvaluate(p: Program, sat: Valuation, stack: seq<bool>)
    ensures Eval(p, sat, stack).Some? <==> Runs(p, |stack|)
    decreases |p|
  {
    if p != [] {
      match p[0]
      case Term(name, text) =>
        if |p| > 1 && p[1].Compare? { RunsEvaluate(p[2..], sat, stack + [sat(Condition(p[1].op, name, text))]); }
      case Boolean(isOr, n) =>
        if n <= |stack| {
          var base, args := stack[..|stack| - n], stack[|stack| - n..];
          RunsEvaluate(p[1..], sat, base + [if isOr then Any(args) else All(args)]);
        }
      case Compare(_) =>
    }
  }

  /** Every OR of several operands takes exactly the conditions since the last boolean operator. */
  predicate OrsTakeTheirTerms(p: Program, termc: nat)
    decreases |p|
  {
    if p == [] then true
    else match p[0]
         case Term(_, _) => |p| > 1 && OrsTakeTheirTerms(p[2..], termc + 1)
         case Boolean(isOr, n) => (isOr ==> n == 1 || (n > 1 && n == termc)) && OrsTakeTheirTerms(p[1..], 0)
         case Compare(_) => false
  }

  function Holds(sat: Valuation, c: Comparison<string>): bool { sat(Condition(c.op, c.name, c.value)) }

  /** All groups have a condition that holds; `later` says that one behind the list does, in its last group. */
  predicate Cnf(list: Collected, sat: Valuation, later: bool)
  {
    if list == [] then true
    else
      var c := list[|list| - 1];
      var here := later || Holds(sat, c);
      if c.newGroup then here && Cnf(list[..|list| - 1], sat, false) else Cnf(list[..|list| - 1], sat, here)
  }

  /** The truth of the last k conditions. */
  function Marks(list: Collected, sat: Valuation, k: nat): (r: seq<bool>)
    requires k <= |list|
    ensures |r| == k && forall i :: 0 <= i < k ==> r[i] == Holds(sat, list[|list| - k + i])
  {
    seq(k, i requires 0 <= i < k => Holds(sat, list[|list| - k + i]))
  }

  ghost predicate LastAreNew(list: Collected, k: nat)
    requires k <= |list|
  {
    forall i :: |list| - k <= i < |list| ==> list[i].newGroup
  }

  lemma AllSplit(a: seq<bool>, b: seq<bool>)
    ensures All(a + b) <==> All(a) && All(b)
  {
    if All(a + b) {
      forall i | 0 <= i < |a| ensures a[i] { assert (a + b)[i]; }
      forall i | 0 <= i < |b| ensures b[i] { assert (a + b)[|a| + i]; }
    }
  }

  lemma AllOne(b: bool)
    ensures All([b]) <==> b
  {
    if All([b]) { assert [b][0]; }
  }

  lemma {:induction false} CnfSingles(list: Collected, sat: Valuation, k: nat)
    requires k <= |list| && LastAreNew(list, k)
    ensures Cnf(list, sat, false) <==> Cnf(list[..|list| - k], sat, false) && All(Marks(list, sat, k))
    decreases k
  {
    if k == 0 {
      assert list[..|list|] == list;
    } else {
      var front, c := list[..|list| - 1], list[|list| - 1];
      CnfSingles(front, sat, k - 1);
      assert front[..|front| - (k - 1)] == list[..|list| - k];
      var marks := Marks(list, sat, k);
      assert marks == Marks(front, sat, k - 1) + [Holds(sat, c)];
      AllSplit(Marks(front, sat, k - 1), [Holds(sat, c)]);
      AllOne(Holds(sat, c));
    }
  }

  /** A group at the end, as far as its first m conditions. */
  lemma {:induction false} CnfGroup(list: Collected, sat: Valuation, start: nat, later: bool)
    requires start < |list| && list[start].newGroup
    requires forall i :: start < i < |list| ==> !list[i].newGroup
    ensures Cnf(list, sat, later)
       <==> Cnf(list[..start], sat, false) && (later || Any(Marks(list, sat, |list| - start)))
    decreases |list|
  {
    var front, c := list[..|list| - 1], list[|list| - 1];
    var marks := Marks(list, sat, |list| - start);
    var last := |list| - start - 1;
    assert marks[last] == Holds(sat, c);
    if start == |list| - 1 {
      assert front == list[..start];
      if Any(marks) { assert marks[0]; }
    } else {
      CnfGroup(front, sat, start, later || Holds(sat, c));
      assert front[..start] == list[..start];
      var shorter := Marks(front, sat, |front| - start);
      assert marks[..last] == shorter;
      if Any(marks) && !marks[last] {
        var i :| 0 <= i < |marks| && marks[i];
        assert shorter[i];
      }
      if Any(shorter) {
        var i :| 0 <= i < |shorter| && shorter[i];
        assert marks[i];
      }
    }
  }

  lemma CnfJoined(list: Collected, sat: Valuation, k: nat)
    requires 1 <= k <= |list| && LastAreNew(list, k)
    ensures Cnf(Joined(list, k), sat, false)
       <==> Cnf(list[..|list| - k], sat, false) && Any(Marks(list, sat, k))
  {
    hide Cnf, Any;
    var joined := Joined(list, k);
    CnfGroup(joined, sat, |list| - k, false);
    assert joined[..|list| - k] == list[..|list| - k];
    forall i | 0 <= i < k ensures Marks(joined, sat, k)[i] == Marks(list, sat, k)[i] {
      assert joined[|list| - k + i] == list[|list| - k + i].(newGroup := i == 0);
    }
    assert Marks(joined, sat, k) == Marks(list, sat, k);
  }

  /** Stack and list say the same; the last `termc` conditions are still on the stack one by one. */
  ghost predicate Agree(stack: seq<bool>, list: Collected, termc: nat, sat: Valuation)
  {
    && termc <= |list| && termc <= |stack|
    && LastAreNew(list, termc)
    && stack[|stack| - termc..] == Marks(list, sat, termc)
    && (All(stack[..|stack| - termc]) <==> Cnf(list[..|list| - termc], sat, false))
  }

  lemma AgreeAll(stack: seq<bool>, list: Collected, termc: nat, sat: Valuation)
    requires Agree(stack, list, termc, sat)
    ensures All(stack) <==> Cnf(list, sat, false)
  {
    AllSplit(stack[..|stack| - termc], stack[|stack| - termc..]);
    assert stack[..|stack| - termc] + stack[|stack| - termc..] == stack;
    CnfSingles(list, sat, termc);
  }

  lemma AgreeTerm(stack: seq<bool>, list: Collected, termc: nat, sat: Valuation, c: Comparison<string>)
    requires Agree(stack, list, termc, sat) && c.newGroup
    ensures Agree(stack + [Holds(sat, c)], list + [c], termc + 1, sat)
  {
    var s, l := stack + [Holds(sat, c)], list + [c];
    assert s[|s| - (termc + 1)..] == stack[|stack| - termc..] + [Holds(sat, c)];
    assert s[..|s| - (termc + 1)] == stack[..|stack| - termc];
    assert l[..|l| - (termc + 1)] == list[..|list| - termc];
  }

  /** A boolean operator that keeps the conjunction of the stack closes the conditions before it. */
  lemma AgreeClosed(stack: seq<bool>, list: Collected, sat: Valuation)
    requires All(stack) <==> Cnf(list, sat, false)
    ensures Agree(stack, list, 0, sat)
  {
    assert stack[..|stack| - 0] == stack && list[..|list| - 0] == list;
    assert stack[|stack| - 0..] == [];
  }

  lemma AgreeAnd(stack: seq<bool>, list: Collected, termc: nat, sat: Valuation, n: nat)
    requires Agree(stack, list, termc, sat) && n <= |stack|
    ensures Agree(stack[..|stack| - n] + [All(stack[|stack| - n..])], list, 0, sat)
  {
    var base, args := stack[..|stack| - n], stack[|stack| - n..];
    AgreeAll(stack, list, termc, sat);
    assert base + args == stack;
    AllSplit(base, args);
    AllSplit(base, [All(args)]);
    AllOne(All(args));
    AgreeClosed(base + [All(args)], list, sat);
  }

  lemma AgreeOr(stack: seq<bool>, list: Collected, termc: nat, sat: Valuation)
    requires Agree(stack, list, termc, sat) && termc > 0
    ensures Agree(stack[..|stack| - termc] + [Any(stack[|stack| - termc..])], Joined(list, termc), 0, sat)
  {
    var base, args := stack[..|stack| - termc], stack[|stack| - termc..];
    CnfJoined(list, sat, termc);
    AllSplit(base, [Any(args)]);
    AllOne(Any(args));
    AgreeClosed(base + [Any(args)], Joined(list, termc), sat);
  }

  lemma AnyOne(b: bool)
    ensures Any([b]) <==> b
  {
    if b { assert [b][0]; }
  }

  /** An operator with a single operand changes nothing. */
  lemma AgreeSingle(stack: seq<bool>, list: Collected, termc: nat, sat: Valuation)
    requires Agree(stack, list, termc, sat) && stack != []
    ensures var args := stack[|stack| - 1..]; stack[..|stack| - 1] + [Any(args)] == stack
    ensures Agree(stack, list, 0, sat)
  {
    var args := stack[|stack| - 1..];
    assert args == [stack[|stack| - 1]];
    AnyOne(stack[|stack| - 1]);
    AgreeAll(stack, list, termc, sat);
    AgreeClosed(stack, list, sat);
  }

  lemma JoinedFew(list: Collected, termc: nat)
    requires termc <= |list|
    ensures termc <= 1 ==> Joined(list, termc) == list
  {
  }

  lemma CollectBoolean(p: Program, list: Collected, termc: nat, isOr: bool, n: nat)
    requires p != [] && p[0] == Boolean(isOr, n) && termc <= |list| && Collect(p, list, termc).Ok?
    ensures Collect(p, list, termc) == Collect(p[1..], if isOr then Joined(list, termc) else list, 0)
  {
    JoinedFew(list, termc);
  }

  /** One boolean operator that keeps the meaning: the operands on the stack and the groups in the list. */
  lemma AgreeBoolean(stack: seq<bool>, list: Collected, termc: nat, sat: Valuation, isOr: bool, n: nat)
    requires Agree(stack, list, termc, sat) && n <= |stack|
    requires isOr ==> (n == 1 && termc <= 1) || (n > 1 && n == termc)
    ensures var args := stack[|stack| - n..];
            Agree(stack[..|stack| - n] + [if isOr then Any(args) else All(args)],
                  if isOr then Joined(list, termc) else list, 0, sat)
  {
    JoinedFew(list, termc);
    if !isOr {
      AgreeAnd(stack, list, termc, sat, n);
    } else if n > 1 {
      AgreeOr(stack, list, termc, sat);
    } else {
      AgreeSingle(stack, list, termc, sat);
    }
  }

  /** The collected groups mean what the code means, under every valuation, if every OR takes the conditions in
      front of it. */
  lemma {:induction false} MeaningKept(p: Program, sat: Valuation, stack: seq<bool>, list: Collected, termc: nat)
    requires Agree(stack, list, termc, sat) && OrsTakeTheirTerms(p, termc)
    requires Collect(p, list, termc).Ok? && Eval(p, sat, stack).Some?
    ensures All(Eval(p, sat, stack).value) <==> Cnf(Collect(p, list, termc).value, sat, false)
    decreases |p|
  {
    assert termc <= |list|;
    hide Agree, All, Any, Cnf;
    if p == [] {
      AgreeAll(stack, list, termc, sat);
    } else {
      match p[0]
      case Term(name, text) =>
        var c := Comparison(p[1].op, name, text, true);
        AgreeTerm(stack, list, termc, sat, c);
        MeaningKept(p[2..], sat, stack + [Holds(sat, c)], list + [c], termc + 1);
      case Boolean(isOr, n) =>
        var args := stack[|stack| - n..];
        CollectBoolean(p, list, termc, isOr, n);
        AgreeBoolean(stack, list, termc, sat, isOr, n);
        MeaningKept(p[1..], sat, stack[..|stack| - n] + [if isOr then Any(args) else All(args)],
                    if isOr then Joined(list, termc) else list, 0);
    }
  }

  // ---- where the meaning is lost ----

  /** The conditions of a program. */
  function ConditionsOf(p: Program): set<Condition>
    decreases |p|
  {
    if p == [] then {}
    else if p[0].Term? && |p| > 1 && p[1].Compare?
    then {Condition(p[1].op, p[0].name, p[0].text)} + ConditionsOf(p[2..])
    else ConditionsOf(p[1..])
  }

  /** No condition occurs twice. */
  predicate DistinctConditions(p: Program)
    decreases |p|
  {
    if p == [] then true
    else if p[0].Term? && |p| > 1 && p[1].Compare?
    then Condition(p[1].op, p[0].name, p[0].text) !in ConditionsOf(p[2..]) && DistinctConditions(p[2..])
    else DistinctConditions(p[1..])
  }

  /** Every operator has operands. */
  predicate OperatorsHaveOperands(p: Program)
  {
    forall i :: 0 <= i < |p| && p[i].Boolean? ==> p[i].nofOperands > 0
  }

  type Supports = seq<set<Condition>>

  ghost function UnionOf(s: Supports): set<Condition>
  {
    set i, c | 0 <= i < |s| && c in s[i] :: c
  }

  ghost predicate AllTrue(cs: set<Condition>, sat: Valuation) { forall c :: c in cs ==> sat(c) }

  ghost predicate AllFalse(cs: set<Condition>, sat: Valuation) { forall c :: c in cs ==> !sat(c) }

  /** Every element of the stack is true if its conditions are, and false if they are all false. */
  ghost predicate Supported(stack: seq<bool>, supports: Supports, sat: Valuation)
  {
    && |stack| == |supports|
    && (forall i :: 0 <= i < |stack| && AllTrue(supports[i], sat) ==> stack[i])
    && (forall i :: 0 <= i < |stack| && AllFalse(supports[i], sat) ==> !stack[i])
  }

  /** The elements of the stack have no conditions in common, neither with each other nor with the rest. */
  ghost predicate Apart(supports: Supports, rest: set<Condition>)
  {
    && (forall i, j :: 0 <= i < j < |supports| ==> supports[i] !! supports[j])
    && (forall i :: 0 <= i < |supports| ==> supports[i] !! rest)
  }

  lemma SupportedTerm(stack: seq<bool>, supports: Supports, sat: Valuation, c: Condition)
    requires Supported(stack, supports, sat)
    ensures Supported(stack + [sat(c)], supports + [{c}], sat)
  {
  }

  ghost function Operated(supports: Supports, n: nat): (r: Supports)
    requires n <= |supports|
    ensures |r| == |supports| - n + 1
  {
    supports[..|supports| - n] + [UnionOf(supports[|supports| - n..])]
  }

  lemma SupportedBoolean(stack: seq<bool>, supports: Supports, sat: Valuation, isOr: bool, n: nat)
    requires Supported(stack, supports, sat) && 0 < n <= |stack|
    ensures var args := stack[|stack| - n..];
            Supported(stack[..|stack| - n] + [if isOr then Any(args) else All(args)], Operated(supports, n), sat)
  {
    var args, ss := stack[|stack| - n..], supports[|stack| - n..];
    forall i | 0 <= i < n ensures AllTrue(UnionOf(ss), sat) ==> args[i] {
      if AllTrue(UnionOf(ss), sat) { assert AllTrue(supports[|stack| - n + i], sat); }
    }
    forall i | 0 <= i < n ensures AllFalse(UnionOf(ss), sat) ==> !args[i] {
      if AllFalse(UnionOf(ss), sat) { assert AllFalse(supports[|stack| - n + i], sat); }
    }
    if AllTrue(UnionOf(ss), sat) { assert args[0] && All(args) && Any(args); }
    if AllFalse(UnionOf(ss), sat) { assert !args[0] && !All(args) && !Any(args); }
  }

  lemma ApartTerm(supports: Supports, p: Program, c: Condition)
    requires Apart(supports, ConditionsOf(p)) && |p| > 1 && p[0].Term? && p[1].Compare? && DistinctConditions(p)
    requires c == Condition(p[1].op, p[0].name, p[0].text)
    ensures Apart(supports + [{c}], ConditionsOf(p[2..]))
  {
  }

  lemma ApartBoolean(supports: Supports, rest: set<Condition>, n: nat)
    requires Apart(supports, rest) && n <= |supports|
    ensures Apart(Operated(supports, n), rest)
  {
    var ss := supports[|supports| - n..];
    forall i, c | 0 <= i < |supports| - n && c in supports[i] ensures c !in UnionOf(ss) {
    }
    forall c | c in UnionOf(ss) ensures c !in rest {
    }
  }

  /** A stack of true elements stays so where all conditions hold. */
  lemma {:induction false} TrueStays(p: Program, sat: Valuation, stack: seq<bool>)
    requires All(stack) && AllTrue(ConditionsOf(p), sat) && OperatorsHaveOperands(p) && Eval(p, sat, stack).Some?
    ensures All(Eval(p, sat, stack).value)
    decreases |p|
  {
    if p != [] {
      match p[0]
      case Term(name, text) =>
        TrueStays(p[2..], sat, stack + [sat(Condition(p[1].op, name, text))]);
      case Boolean(isOr, n) =>
        var args := stack[|stack| - n..];
        assert p[0].nofOperands > 0 && args[0];
        TrueStays(p[1..], sat, stack[..|stack| - n] + [if isOr then Any(args) else All(args)]);
    }
  }

  /** What is collected begins with the groups that are closed already. */
  lemma {:induction false} CollectExtends(p: Program, list: Collected, termc: nat)
    requires termc <= |list| && LastAreNew(list, termc) && Collect(p, list, termc).Ok?
    ensures var r, k := Collect(p, list, termc).value, |list| - termc;
            |r| >= |list| && r[..k] == list[..k] && (|r| > k ==> r[k].newGroup)
    decreases |p|
  {
    if p != [] {
      match p[0]
      case Term(name, text) =>
        var more := list + [Comparison(p[1].op, name, text, true)];
        CollectExtends(p[2..], more, termc + 1);
        assert more[..|list| - termc] == list[..|list| - termc];
      case Boolean(isOr, n) =>
        var next := if isOr then Joined(list, termc) else list;
        CollectBoolean(p, list, termc, isOr, n);
        CollectExtends(p[1..], next, 0);
        assert next[..|list| - 0] == next;
        assert next[..|list| - termc] == list[..|list| - termc];
    }
  }

  lemma {:induction false} CnfOfPrefix(list: Collected, k: nat, sat: Valuation, later: bool)
    requires k < |list| && list[k].newGroup && Cnf(list, sat, later)
    ensures Cnf(list[..k], sat, false)
    decreases |list|
  {
    var front, c := list[..|list| - 1], list[|list| - 1];
    if k < |list| - 1 {
      assert front[..k] == list[..k];
      CnfOfPrefix(front, k, sat, if c.newGroup then false else later || Holds(sat, c));
    } else {
      assert front == list[..k];
    }
  }

  /** Groups that fail keep failing, whatever is collected behind them. */
  lemma FalseStays(p: Program, list: Collected, sat: Valuation)
    requires Collect(p, list, 0).Ok? && !Cnf(list, sat, false)
    ensures !Cnf(Collect(p, list, 0).value, sat, false)
  {
    CollectExtends(p, list, 0);
    var r := Collect(p, list, 0).value;
    assert r[..|list|] == list[..|list| - 0] == list;
    if |r| > |list| {
      if Cnf(r, sat, false) { CnfOfPrefix(r, |list|, sat, false); }
    } else {
      assert r == list;
    }
  }

  /** All conditions hold except those of the last m elements of the stack. */
  function Without(cs: set<Condition>): Valuation { c => c !in cs }

  lemma LastFail(stack: seq<bool>, supports: Supports, m: nat, rest: set<Condition>)
    requires 0 < m <= |supports| && Apart(supports, rest)
    requires Supported(stack, supports, Without(UnionOf(supports[|supports| - m..])))
    ensures forall i :: 0 <= i < |stack| ==> stack[i] == (i < |stack| - m)
  {
    var ss := supports[|supports| - m..];
    var sat := Without(UnionOf(ss));
    forall i | 0 <= i < |stack| - m ensures AllTrue(supports[i], sat) {
    }
    forall i | |stack| - m <= i < |stack| ensures AllFalse(supports[i], sat) {
      assert supports[i] == ss[i - (|stack| - m)];
    }
  }

  /** An OR that takes more than its terms: where just its terms fail, or the last result that it takes if it has no
      terms, it holds on the stack, but the collected groups fail. */
  lemma OffendingOr(p: Program, stack: seq<bool>, supports: Supports, list: Collected, termc: nat, n: nat,
                    m: nat, sat: Valuation)
    requires p != [] && p[0] == Boolean(true, n) && m < n <= |stack| && m == (if termc == 0 then 1 else termc)
    requires termc <= |list| && Collect(p, list, termc).Ok? && Runs(p, |stack|) && OperatorsHaveOperands(p)
    requires Apart(supports, ConditionsOf(p)) && |supports| == |stack|
    requires sat == Without(UnionOf(supports[|supports| - m..]))
    requires Supported(stack, supports, sat) && Agree(stack, list, termc, sat)
    ensures Eval(p, sat, stack).Some? && All(Eval(p, sat, stack).value)
    ensures !Cnf(Collect(p, list, termc).value, sat, false)
  {
    hide *;
    LastFail(stack, supports, m, ConditionsOf(p));
    OrOfSomeHolds(p, stack, supports, n, m);
    CollectBoolean(p, list, termc, true, n);
    JoinedFails(stack, list, termc, sat);
    FalseStays(p[1..], Joined(list, termc), sat);
  }

  lemma OrOfSomeHolds(p: Program, stack: seq<bool>, supports: Supports, n: nat, m: nat)
    requires p != [] && p[0] == Boolean(true, n) && m < n <= |stack| == |supports|
    requires Runs(p, |stack|) && OperatorsHaveOperands(p) && Apart(supports, ConditionsOf(p))
    requires forall i :: 0 <= i < |stack| ==> stack[i] == (i < |stack| - m)
    ensures var sat := Without(UnionOf(supports[|supports| - m..]));
            Eval(p, sat, stack).Some? && All(Eval(p, sat, stack).value)
  {
    var sat := Without(UnionOf(supports[|supports| - m..]));
    var args := stack[|stack| - n..];
    assert args[0] && Any(args);
    assert ConditionsOf(p) == ConditionsOf(p[1..]);
    RestIsTrue(p[1..], supports, m, ConditionsOf(p));
    RunsEvaluate(p, sat, stack);
    TrueStays(p[1..], sat, stack[..|stack| - n] + [Any(args)]);
  }

  lemma JoinedFails(stack: seq<bool>, list: Collected, termc: nat, sat: Valuation)
    requires Agree(stack, list, termc, sat) && stack != []
    requires forall i :: |stack| - termc <= i < |stack| ==> !stack[i]
    requires !stack[|stack| - 1]
    ensures !Cnf(Joined(list, termc), sat, false)
  {
    AgreeAll(stack, list, termc, sat);
    if termc > 0 {
      CnfJoined(list, sat, termc);
      assert !Any(Marks(list, sat, termc));
    } else {
      JoinedFew(list, termc);
    }
  }

  lemma RestIsTrue(p: Program, supports: Supports, m: nat, rest: set<Condition>)
    requires m <= |supports| && Apart(supports, rest) && ConditionsOf(p) <= rest
    ensures AllTrue(ConditionsOf(p), Without(UnionOf(supports[|supports| - m..])))
  {
  }

  /** Stack, supports and list belong together under a valuation. */
  ghost predicate Related(stack: seq<bool>, supports: Supports, list: Collected, termc: nat, sat: Valuation)
  {
    Supported(stack, supports, sat) && Agree(stack, list, termc, sat)
  }

  lemma RelatedTerm(stack: seq<bool>, supports: Supports, list: Collected, termc: nat, sat: Valuation,
                    f: Comparison<string>)
    requires Related(stack, supports, list, termc, sat) && f.newGroup
    ensures var c := Condition(f.op, f.name, f.value);
            Related(stack + [sat(c)], supports + [{c}], list + [f], termc + 1, sat)
  {
    SupportedTerm(stack, supports, sat, Condition(f.op, f.name, f.value));
    AgreeTerm(stack, list, termc, sat, f);
  }

  ghost function Reduced(stack: seq<bool>, isOr: bool, n: nat): seq<bool>
    requires n <= |stack|
  {
    stack[..|stack| - n] + [if isOr then Any(stack[|stack| - n..]) else All(stack[|stack| - n..])]
  }

  lemma RelatedBoolean(stack: seq<bool>, supports: Supports, list: Collected, termc: nat, sat: Valuation,
                       isOr: bool, n: nat)
    requires Related(stack, supports, list, termc, sat) && 0 < n <= |supports|
    requires isOr ==> (n == 1 && termc <= 1) || (n > 1 && n == termc)
    ensures |stack| == |supports|
    ensures Related(Reduced(stack, isOr, n), Operated(supports, n), if isOr then Joined(list, termc) else list, 0, sat)
  {
    SupportedBoolean(stack, supports, sat, isOr, n);
    AgreeBoolean(stack, list, termc, sat, isOr, n);
  }

  /** Wherever stack and list agree, the code holds under this valuation, and the groups collected from it do not. */
  ghost predicate Separates(sat: Valuation, p: Program, supports: Supports, list: Collected, termc: nat)
    requires termc <= |list| && Collect(p, list, termc).Ok?
  {
    && !Cnf(Collect(p, list, termc).value, sat, false)
    && forall stack :: Related(stack, supports, list, termc, sat) ==>
         Eval(p, sat, stack).Some? && All(Eval(p, sat, stack).value)
  }

  lemma SeparatesTerm(sat: Valuation, p: Program, supports: Supports, list: Collected, termc: nat)
    requires |p| > 1 && p[0].Term? && p[1].Compare? && termc <= |list| && Collect(p, list, termc).Ok?
    requires var f := Comparison(p[1].op, p[0].name, p[0].text, true);
             Separates(sat, p[2..], supports + [{Condition(p[1].op, p[0].name, p[0].text)}], list + [f], termc + 1)
    ensures Separates(sat, p, supports, list, termc)
  {
    hide Related;
    var c := Condition(p[1].op, p[0].name, p[0].text);
    var f := Comparison(p[1].op, p[0].name, p[0].text, true);
    forall stack | Related(stack, supports, list, termc, sat)
      ensures Eval(p, sat, stack) == Eval(p[2..], sat, stack + [sat(c)])
      ensures Related(stack + [sat(c)], supports + [{c}], list + [f], termc + 1, sat)
    {
      RelatedTerm(stack, supports, list, termc, sat, f);
    }
  }

  lemma SeparatesBoolean(sat: Valuation, p: Program, supports: Supports, list: Collected, termc: nat,
                         isOr: bool, n: nat)
    requires p != [] && p[0] == Boolean(isOr, n) && termc <= |list| && 0 < n <= |supports|
    requires isOr ==> (n == 1 && termc <= 1) || (n > 1 && n == termc)
    requires Collect(p, list, termc).Ok?
    requires var next := if isOr then Joined(list, termc) else list;
             && Collect(p[1..], next, 0) == Collect(p, list, termc)
             && Separates(sat, p[1..], Operated(supports, n), next, 0)
    ensures Separates(sat, p, supports, list, termc)
  {
    hide Related, Joined;
    forall stack | Related(stack, supports, list, termc, sat)
      ensures |stack| >= n && Eval(p, sat, stack) == Eval(p[1..], sat, Reduced(stack, isOr, n))
      ensures Related(Reduced(stack, isOr, n), Operated(supports, n),
                      if isOr then Joined(list, termc) else list, 0, sat)
    {
      RelatedBoolean(stack, supports, list, termc, sat, isOr, n);
    }
  }

  lemma SeparatesHere(p: Program, supports: Supports, list: Collected, termc: nat, n: nat) returns (sat: Valuation)
    requires p != [] && p[0] == Boolean(true, n) && termc < n && 1 < n <= |supports| && termc <= |list|
    requires Collect(p, list, termc).Ok? && Runs(p, |supports|) && OperatorsHaveOperands(p)
    requires Apart(supports, ConditionsOf(p))
    ensures (exists stack :: Related(stack, supports, list, termc, sat)) ==> Separates(sat, p, supports, list, termc)
  {
    var m := if termc == 0 then 1 else termc;
    sat := Without(UnionOf(supports[|supports| - m..]));
    forall stack | Related(stack, supports, list, termc, sat)
      ensures Eval(p, sat, stack).Some? && All(Eval(p, sat, stack).value)
      ensures !Cnf(Collect(p, list, termc).value, sat, false)
    {
      hide All, Cnf, Apart, Runs, ConditionsOf, UnionOf;
      OffendingOr(p, stack, supports, list, termc, n, m, sat);
    }
  }

  /** Some valuation under which the code holds and the collected groups do not. */
  lemma {:induction false} MeaningLost(p: Program, supports: Supports, list: Collected, termc: nat)
    returns (sat: Valuation)
    requires Runs(p, |supports|) && termc <= |supports| && termc <= |list| && Collect(p, list, termc).Ok?
    requires OperatorsHaveOperands(p) && DistinctConditions(p) && Apart(supports, ConditionsOf(p))
    requires !OrsTakeTheirTerms(p, termc)
    ensures (exists stack :: Related(stack, supports, list, termc, sat)) ==> Separates(sat, p, supports, list, termc)
    decreases |p|
  {
    OperandsBehind(p);
    match p[0]
    case Term(name, text) =>
      sat := LostBehindTerm(p, supports, list, termc);
    case Boolean(isOr, n) =>
      CollectBoolean(p, list, termc, isOr, n);
      if isOr && n > 1 && n != termc {
        sat := SeparatesHere(p, supports, list, termc, n);
      } else {
        sat := LostBehindBoolean(p, supports, list, termc, isOr, n);
      }
  }

  lemma OperandsBehind(p: Program)
    requires OperatorsHaveOperands(p)
    ensures p != [] ==> OperatorsHaveOperands(p[1..]) && (p[0].Boolean? ==> p[0].nofOperands > 0)
    ensures |p| > 1 ==> OperatorsHaveOperands(p[2..])
  {
  }

  lemma {:induction false} LostBehindTerm(p: Program, supports: Supports, list: Collected, termc: nat)
    returns (sat: Valuation)
    requires |p| > 1 && p[0].Term? && p[1].Compare?
    requires Runs(p, |supports|) && termc <= |supports| && termc <= |list| && Collect(p, list, termc).Ok?
    requires OperatorsHaveOperands(p[2..]) && DistinctConditions(p) && Apart(supports, ConditionsOf(p))
    requires !OrsTakeTheirTerms(p, termc)
    ensures (exists stack :: Related(stack, supports, list, termc, sat)) ==> Separates(sat, p, supports, list, termc)
    decreases |p|, 0
  {
    var c := Condition(p[1].op, p[0].name, p[0].text);
    var f := Comparison(p[1].op, p[0].name, p[0].text, true);
    ApartTerm(supports, p, c);
    hide Related, Apart, Separates;
    sat := MeaningLost(p[2..], supports + [{c}], list + [f], termc + 1);
    if stack :| Related(stack, supports, list, termc, sat) {
      RelatedTerm(stack, supports, list, termc, sat, f);
      assert Related(stack + [sat(c)], supports + [{c}], list + [f], termc + 1, sat);
      SeparatesTerm(sat, p, supports, list, termc);
    }
  }

  lemma {:induction false} LostBehindBoolean(p: Program, supports: Supports, list: Collected, termc: nat,
                                             isOr: bool, n: nat) returns (sat: Valuation)
    requires p != [] && p[0] == Boolean(isOr, n) && 0 < n
    requires isOr ==> (n == 1 && termc <= 1) || (n > 1 && n == termc)
    requires Runs(p, |supports|) && termc <= |supports| && termc <= |list| && Collect(p, list, termc).Ok?
    requires OperatorsHaveOperands(p[1..]) && DistinctConditions(p) && Apart(supports, ConditionsOf(p))
    requires !OrsTakeTheirTerms(p, termc)
    ensures (exists stack :: Related(stack, supports, list, termc, sat)) ==> Separates(sat, p, supports, list, termc)
    decreases |p|, 0
  {
    var next := if isOr then Joined(list, termc) else list;
    CollectBoolean(p, list, termc, isOr, n);
    ApartBoolean(supports, ConditionsOf(p[1..]), n);
    hide Related, Apart, Separates, Joined, Operated, UnionOf;
    sat := MeaningLost(p[1..], Operated(supports, n), next, 0);
    if stack :| Related(stack, supports, list, termc, sat) {
      RelatedBoolean(stack, supports, list, termc, sat, isOr, n);
      assert Related(Reduced(stack, isOr, n), Operated(supports, n), next, 0, sat);
      SeparatesBoolean(sat, p, supports, list, termc, isOr, n);
    }
  }

  /** The code of a restriction and what is collected from it hold under the same conditions. */
  ghost predicate SameMeaning(p: Program, sat: Valuation)
    requires Runs(p, 0) && Collect(p, [], 0).Ok?
  {
    RunsEvaluate(p, sat, []);
    All(Eval(p, sat, []).value) <==> Cnf(Collect(p, [], 0).value, sat, false)
  }

  /** Serializing keeps the meaning of a restriction whose ORs take exactly the conditions in front of them. */
  lemma RestrictionMeaning(p: Program, sat: Valuation)
    requires Runs(p, 0) && Collect(p, [], 0).Ok? && OrsTakeTheirTerms(p, 0)
    ensures SameMeaning(p, sat)
  {
    RunsEvaluate(p, sat, []);
    AgreeClosed([], [], sat);
    MeaningKept(p, sat, [], [], 0);
  }

  /** And of no other one, as long as its conditions differ from each other: code with an OR over earlier results is
      serialized with another meaning. */
  lemma MeaningIsExact(p: Program)
    requires Runs(p, 0) && Collect(p, [], 0).Ok? && OperatorsHaveOperands(p) && DistinctConditions(p)
    ensures OrsTakeTheirTerms(p, 0) <==> forall sat: Valuation :: SameMeaning(p, sat)
  {
    if OrsTakeTheirTerms(p, 0) {
      forall sat: Valuation ensures SameMeaning(p, sat) { RestrictionMeaning(p, sat); }
    } else {
      var sat := MeaningLost(p, [], [], 0);
      AgreeClosed([], [], sat);
      assert Related([], [], [], 0, sat);
      assert !SameMeaning(p, sat);
    }
  }

  // ---- the code that is written ----

  ghost predicate GroupHolds(g: Group, sat: Valuation) { exists i :: 0 <= i < |g| && sat(g[i]) }

  ghost predicate AllGroupsHold(groups: seq<Group>, sat: Valuation)
  {
    forall i :: 0 <= i < |groups| ==> GroupHolds(groups[i], sat)
  }

  function Values(g: seq<Condition>, sat: Valuation): (r: seq<bool>)
    ensures |r| == |g|
  {
    seq(|g|, i requires 0 <= i < |g| => sat(g[i]))
  }

  lemma {:induction false} EvalConditions(g: seq<Condition>, p: Program, sat: Valuation, stack: seq<bool>)
    ensures Eval(CodesOf(g) + p, sat, stack) == Eval(p, sat, stack + Values(g, sat))
    decreases g
  {
    if g == [] {
      Unit(p);
      Unit(stack);
    } else {
      var code := CodesOf(g) + p;
      assert code[2..] == CodesOf(g[1..]) + p && code[0] == Term(g[0].name, g[0].text) && code[1] == Compare(g[0].op);
      EvalConditions(g[1..], p, sat, stack + [sat(g[0])]);
      assert stack + [sat(g[0])] + Values(g[1..], sat) == stack + Values(g, sat);
    }
  }

  lemma EvalGroup(g: Group, p: Program, sat: Valuation, stack: seq<bool>)
    ensures Eval(GroupCode(g) + p, sat, stack) == Eval(p, sat, stack + [GroupHolds(g, sat)])
  {
    var values := Values(g, sat);
    if GroupHolds(g, sat) { var i :| 0 <= i < |g| && sat(g[i]); assert values[i]; }
    assert Any(values) <==> GroupHolds(g, sat);
    if |g| > 1 {
      var op := [Boolean(true, |g|)];
      Assoc(CodesOf(g), op, p);
      EvalConditions(g, op + p, sat, stack);
      assert (op + p)[1..] == p;
      var s := stack + values;
      assert s[..|s| - |g|] == stack && s[|s| - |g|..] == values;
    } else {
      Unit(CodesOf(g));
      EvalConditions(g, p, sat, stack);
      assert values == [sat(g[0])];
      AnyOne(sat(g[0]));
    }
  }

  lemma {:induction false} EvalGroups(groups: seq<Group>, sat: Valuation, stack: seq<bool>)
    ensures Eval(Code(groups), sat, stack).Some?
    ensures All(Eval(Code(groups), sat, stack).value) <==> All(stack) && AllGroupsHold(groups, sat)
    decreases groups
  {
    if groups != [] {
      EvalGroup(groups[0], Code(groups[1..]), sat, stack);
      var next := stack + [GroupHolds(groups[0], sat)];
      EvalGroups(groups[1..], sat, next);
      AllSplit(stack, [GroupHolds(groups[0], sat)]);
      AllOne(GroupHolds(groups[0], sat));
      GroupsSplit(groups, sat);
    }
  }

  lemma GroupsSplit(groups: seq<Group>, sat: Valuation)
    requires groups != []
    ensures AllGroupsHold(groups, sat) <==> GroupHolds(groups[0], sat) && AllGroupsHold(groups[1..], sat)
  {
    var rest := groups[1..];
    if GroupHolds(groups[0], sat) && AllGroupsHold(rest, sat) {
      forall i | 0 <= i < |groups| ensures GroupHolds(groups[i], sat) {
        if i > 0 { assert groups[i] == rest[i - 1]; }
      }
    }
    if AllGroupsHold(groups, sat) {
      forall i | 0 <= i < |rest| ensures GroupHolds(rest[i], sat) { assert rest[i] == groups[i + 1]; }
    }
  }

  /** Lists of groups one after the other. */
  lemma {:induction false} CnfConcat(a: Collected, b: Collected, sat: Valuation, later: bool)
    requires b != [] && b[0].newGroup
    ensures Cnf(a + b, sat, later) <==> Cnf(a, sat, false) && Cnf(b, sat, later)
    decreases b
  {
    var all, c := a + b, b[|b| - 1];
    assert all[|all| - 1] == c && all[..|all| - 1] == a + b[..|b| - 1];
    if |b| == 1 {
      assert b[..0] == [];
      Unit(a);
    } else {
      CnfConcat(a, b[..|b| - 1], sat, if c.newGroup then false else later || Holds(sat, c));
    }
  }

  lemma CnfOfGroup(g: Group, sat: Valuation)
    ensures Cnf(Flagged(g), sat, false) <==> GroupHolds(g, sat)
  {
    var list := Flagged(g);
    CnfGroup(list, sat, 0, false);
    assert list[..0] == [];
    var marks := Marks(list, sat, |list|);
    assert forall i :: 0 <= i < |g| ==> marks[i] == sat(g[i]);
    if GroupHolds(g, sat) { var i :| 0 <= i < |g| && sat(g[i]); assert marks[i]; }
  }

  lemma {:induction false} CnfOfGroups(groups: seq<Group>, sat: Valuation)
    ensures Cnf(AllFlagged(groups), sat, false) <==> AllGroupsHold(groups, sat)
    decreases groups
  {
    if groups != [] {
      CnfOfGroups(groups[1..], sat);
      CnfOfGroup(groups[0], sat);
      GroupsSplit(groups, sat);
      if |groups| == 1 {
        assert AllFlagged(groups[1..]) == [];
        Unit(Flagged(groups[0]));
      } else {
        assert AllFlagged(groups[1..])[0] == Flagged(groups[1])[0];
        CnfConcat(Flagged(groups[0]), AllFlagged(groups[1..]), sat, false);
      }
    }
  }

  /** The code that the restriction writer emits, and the groups that are read back, hold exactly if every group has a
      condition that holds. */
  lemma CodeMeaning(groups: seq<Group>, sat: Valuation)
    ensures Eval(Code(groups), sat, []).Some?
    ensures All(Eval(Code(groups), sat, []).value) <==> AllGroupsHold(groups, sat)
    ensures Cnf(AllFlagged(groups), sat, false) <==> AllGroupsHold(groups, sat)
  {
    EvalGroups(groups, sat, []);
    CnfOfGroups(groups, sat);
  }
}
