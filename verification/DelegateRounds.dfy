module DelegateRounds {

  // Loading a configuration: its results become requests to other services, in rounds separated by a counter.

  import opened Wrappers

  /** Where the requests of a result go: to itself, to the services of a variable, or nowhere because the variable
      is not defined or holds something else than addresses. */
  datatype Address = Itself | Services(urls: seq<string>) | NotDefined | NotAnAddress

  /** A result of the request; without a schema it is no delegate request, without content it cannot be printed.
      Content and address are those of the context when the cursor reaches the result. */
  datatype RequestResult<!C> =
    RequestResult(schema: Option<string>, content: C -> Option<string>, address: C -> Address)

  datatype Delegate = Delegate(index: nat, url: Option<string>, schema: string, content: string)

  type Results<!C> = seq<RequestResult<C>>

  /** The delegates of one result, or an error. */
  function DelegatesOf<C>(results: Results<C>, i: nat, context: C): (r: Option<seq<Delegate>>)
    requires i < |results| && results[i].schema.Some?
    ensures r.Some? ==> forall d :: d in r.value ==> d.index == i
  {
    var schema, content := results[i].schema.value, results[i].content(context);
    if content.None? then None
    else match results[i].address(context)
         case Itself => Some([Delegate(i, None, schema, content.value)])
         case Services(urls) =>
           Some(seq(|urls|, k requires 0 <= k < |urls| => Delegate(i, Some(urls[k]), schema, content.value)))
         case _ => None
  }

  /** The next round from a cursor position: the new position and the delegates, or an error. */
  function Fetch<C>(results: Results<C>, idx: nat, context: C): (r: (nat, Option<seq<Delegate>>))
    requires idx <= |results|
    ensures idx <= r.0 <= |results|
    ensures r.1.Some? && r.1.value != [] ==> idx < r.0
    decreases |results| - idx
  {
    if idx == |results| then (idx, Some([]))
    else if results[idx].schema.None? then Fetch(results, idx + 1, context)
    else match DelegatesOf(results, idx, context)
         case None => (idx, None)
         case Some(ds) => (idx + 1, Some(ds))
  }

  predicate IsRound(ds: Option<seq<Delegate>>) { ds.Some? && ds.value != [] }

  /** The contexts in which the rounds are fetched, and the rounds in which a delegate fails. */
  datatype Course<!C> = Course(at: nat -> C, fails: nat -> bool)

  /** The rounds of a load, numbered from k on: an error, a round without delegates or a failure ends them. */
  function Rounds<C>(results: Results<C>, idx: nat, course: Course<C>, k: nat): seq<seq<Delegate>>
    requires idx <= |results|
    decreases |results| - idx
  {
    var (next, ds) := Fetch(results, idx, course.at(k));
    if !IsRound(ds) then []
    else if course.fails(k) then [ds.value]
    else [ds.value] + Rounds(results, next, course, k + 1)
  }

  /** A result whose requests cannot be made, or are none. */
  predicate Blocks<C>(results: Results<C>, i: nat, context: C)
    requires i < |results|
  {
    results[i].schema.Some? && !IsRound(DelegatesOf(results, i, context))
  }

  /** How many results with a schema there are in a range. */
  function Schemas<C>(results: Results<C>, idx: nat, i: nat): nat
    requires idx <= i <= |results|
    decreases i - idx
  {
    if idx == i then 0 else (if results[idx].schema.Some? then 1 else 0) + Schemas(results, idx + 1, i)
  }

  /** The result that is fetched next. */
  lemma {:induction false} FetchedResult<C>(results: Results<C>, idx: nat, context: C) returns (i: nat)
    requires idx <= |results|
    ensures idx <= i <= |results| && forall k :: idx <= k < i ==> results[k].schema.None?
    ensures var (next, ds) := Fetch(results, idx, context);
            if i == |results| then ds == Some([])
            else && results[i].schema.Some? && ds == DelegatesOf(results, i, context)
                 && next == (if ds.Some? then i + 1 else i)
    decreases |results| - idx
  {
    if idx == |results| || results[idx].schema.Some? {
      i := idx;
    } else {
      i := FetchedResult(results, idx + 1, context);
    }
  }

  lemma {:induction false} NoSchemas<C>(results: Results<C>, idx: nat, i: nat, j: nat)
    requires idx <= i <= j <= |results| && forall k :: idx <= k < i ==> results[k].schema.None?
    ensures Schemas(results, idx, j) == Schemas(results, i, j)
    decreases i - idx
  {
    if idx < i { NoSchemas(results, idx + 1, i, j); }
  }

  /** A load makes at most as many rounds as it has results. */
  lemma {:induction false} RoundsBounded<C>(results: Results<C>, idx: nat, course: Course<C>, k: nat)
    requires idx <= |results|
    ensures |Rounds(results, idx, course, k)| <= |results| - idx
    decreases |results| - idx
  {
    var (next, ds) := Fetch(results, idx, course.at(k));
    if IsRound(ds) { RoundsBounded(results, next, course, k + 1); }
  }

  /** Each round holds the delegates of one result with a schema, in the context of its time, and later rounds those
      of later results. */
  lemma {:induction false} RoundsInOrder<C>(results: Results<C>, idx: nat, course: Course<C>, k: nat, n: nat)
    requires idx <= |results| && n < |Rounds(results, idx, course, k)|
    ensures Rounds(results, idx, course, k)[n] != []
    ensures var i := Rounds(results, idx, course, k)[n][0].index;
            && idx <= i < |results| && results[i].schema.Some?
            && Some(Rounds(results, idx, course, k)[n]) == DelegatesOf(results, i, course.at(k + n))
            && (n + 1 < |Rounds(results, idx, course, k)| ==>
                  && Rounds(results, idx, course, k)[n + 1] != []
                  && i < Rounds(results, idx, course, k)[n + 1][0].index)
    decreases |results| - idx
  {
    var i := FetchedResult(results, idx, course.at(k));
    var (next, ds) := Fetch(results, idx, course.at(k));
    assert ds.value[0] in ds.value;
    if n == 0 {
      if 1 < |Rounds(results, idx, course, k)| { RoundsInOrder(results, next, course, k + 1, 0); }
    } else {
      RoundsInOrder(results, next, course, k + 1, n - 1);
    }
  }

  /** The requests that a result asks for in a context: its content goes to every service of its address, in order,
      or to the process itself, and the answers belong to its schema. */
  ghost predicate AskedBy<C>(results: Results<C>, i: nat, context: C, round: seq<Delegate>)
    requires i < |results| && results[i].schema.Some?
  {
    && (forall k :: 0 <= k < |round| ==>
          && round[k].index == i && Some(round[k].schema) == results[i].schema
          && Some(round[k].content) == results[i].content(context))
    && (match results[i].address(context)
        case Itself => |round| == 1 && round[0].url.None?
        case Services(urls) => |round| == |urls| && forall k :: 0 <= k < |urls| ==> round[k].url == Some(urls[k])
        case _ => false)
  }

  /** Every round holds exactly the requests that its result asks for in the context of its time. */
  lemma RoundsAskFor<C>(results: Results<C>, idx: nat, course: Course<C>, k: nat, n: nat)
    requires idx <= |results| && n < |Rounds(results, idx, course, k)|
    ensures Rounds(results, idx, course, k)[n] != []
    ensures var i := Rounds(results, idx, course, k)[n][0].index;
            && idx <= i < |results| && results[i].schema.Some?
            && AskedBy(results, i, course.at(k + n), Rounds(results, idx, course, k)[n])
  {
    RoundsInOrder(results, idx, course, k, n);
  }

  /** A result makes no round exactly if it has no content, its address is not defined or holds something else than
      addresses, or it holds none. */
  lemma BlocksExactly<C>(results: Results<C>, i: nat, context: C)
    requires i < |results| && results[i].schema.Some?
    ensures Blocks(results, i, context)
       <==> || results[i].content(context).None?
            || results[i].address(context) in {NotDefined, NotAnAddress, Services([])}
  {
  }

  ghost predicate Issued<C>(results: Results<C>, idx: nat, course: Course<C>, k: nat, i: nat)
    requires idx <= |results|
  {
    var rounds := Rounds(results, idx, course, k);
    exists n :: 0 <= n < |rounds| && rounds[n] != [] && rounds[n][0].index == i
  }

  lemma IssuedLater<C>(results: Results<C>, idx: nat, course: Course<C>, k: nat, i: nat)
    requires idx <= |results|
    ensures var (next, ds) := Fetch(results, idx, course.at(k));
            Issued(results, idx, course, k, i) <==>
              && IsRound(ds)
              && (ds.value[0].index == i || (!course.fails(k) && Issued(results, next, course, k + 1, i)))
  {
    var (next, ds) := Fetch(results, idx, course.at(k));
    if IsRound(ds) {
      var all := Rounds(results, idx, course, k);
      assert all[0] == ds.value;
      if !course.fails(k) {
        var rest := Rounds(results, next, course, k + 1);
        assert all == [ds.value] + rest;
        if Issued(results, next, course, k + 1, i) {
          var n :| 0 <= n < |rest| && rest[n] != [] && rest[n][0].index == i;
          assert all[n + 1] == rest[n];
        }
        if Issued(results, idx, course, k, i) && ds.value[0].index != i {
          var n :| 0 <= n < |all| && all[n] != [] && all[n][0].index == i;
          assert rest[n - 1] == all[n];
        }
      }
    }
  }

  /** Up to the result, none blocks when its turn comes, and no round before its own fails. */
  ghost predicate Reaches<C>(results: Results<C>, idx: nat, course: Course<C>, k: nat, i: nat)
    requires idx <= i < |results|
  {
    && (forall j :: idx <= j <= i ==> !Blocks(results, j, course.at(k + Schemas(results, idx, j))))
    && forall j :: idx <= j < i && results[j].schema.Some? ==> !course.fails(k + Schemas(results, idx, j))
  }

  /** Exactly the results with a schema are requested that are reached so: an empty address list ends the rounds, and
      the results behind it are never requested. */
  lemma {:induction false} IssuedExactly<C>(results: Results<C>, idx: nat, course: Course<C>, k: nat, i: nat)
    requires idx <= i < |results|
    ensures Issued(results, idx, course, k, i) <==> results[i].schema.Some? && Reaches(results, idx, course, k, i)
    decreases |results| - idx
  {
    var at := FetchedResult(results, idx, course.at(k));
    var (next, ds) := Fetch(results, idx, course.at(k));
    IssuedLater(results, idx, course, k, i);
    if at <= i {
      NoSchemas(results, idx, at, at);
      assert Blocks(results, at, course.at(k)) <==> !IsRound(ds);
      if IsRound(ds) {
        assert ds.value[0] in ds.value;
        if i > at {
          IssuedExactly(results, next, course, k + 1, i);
          ReachesNext(results, idx, at, course, k, i);
        } else {
          NotIssuedBefore(results, next, course, k + 1, i);
          AllBefore(results, idx, course, k, i);
        }
      }
    } else if IsRound(ds) {
      assert ds.value[0] in ds.value;
      NotIssuedBefore(results, next, course, k + 1, i);
    }
  }

  lemma AllBefore<C>(results: Results<C>, idx: nat, course: Course<C>, k: nat, i: nat)
    requires idx <= i < |results| && (forall j :: idx <= j < i ==> results[j].schema.None?)
    requires !Blocks(results, i, course.at(k))
    ensures Reaches(results, idx, course, k, i)
  {
    forall j | idx <= j <= i ensures !Blocks(results, j, course.at(k + Schemas(results, idx, j))) {
      NoSchemas(results, idx, j, j);
    }
  }

  /** Behind the first result with a schema. */
  lemma ReachesNext<C>(results: Results<C>, idx: nat, at: nat, course: Course<C>, k: nat, i: nat)
    requires idx <= at < i < |results| && results[at].schema.Some?
    requires forall j :: idx <= j < at ==> results[j].schema.None?
    ensures Reaches(results, idx, course, k, i)
       <==> !Blocks(results, at, course.at(k)) && !course.fails(k) && Reaches(results, at + 1, course, k + 1, i)
  {
    forall j | idx <= j <= i
      ensures j <= at ==> Schemas(results, idx, j) == 0
      ensures j > at ==> Schemas(results, idx, j) == 1 + Schemas(results, at + 1, j)
    {
      if j <= at { NoSchemas(results, idx, j, j); } else { NoSchemas(results, idx, at, j); }
    }
    if Reaches(results, idx, course, k, i) {
      forall j | at + 1 <= j <= i
        ensures !Blocks(results, j, course.at(k + 1 + Schemas(results, at + 1, j)))
        ensures j < i && results[j].schema.Some? ==> !course.fails(k + 1 + Schemas(results, at + 1, j))
      {
        assert k + Schemas(results, idx, j) == k + 1 + Schemas(results, at + 1, j);
      }
    }
  }

  lemma NotIssuedBefore<C>(results: Results<C>, idx: nat, course: Course<C>, k: nat, i: nat)
    requires i < idx <= |results|
    ensures !Issued(results, idx, course, k, i)
  {
    forall n | 0 <= n < |Rounds(results, idx, course, k)|
      ensures Rounds(results, idx, course, k)[n] != [] && Rounds(results, idx, course, k)[n][0].index != i
    {
      RoundsInOrder(results, idx, course, k, n);
    }
  }

  class RequestContext<C> {
    const results: Results<C>
    var context: C
    var resultIdx: nat

    ghost predicate Valid()
      reads this
    {
      resultIdx <= |results|
    }

    constructor (results: Results<C>, context: C)
      ensures Valid() && this.results == results && this.context == context && resultIdx == 0
    {
      this.results := results;
      this.context := context;
      resultIdx := 0;
    }

    /** The delegates of the next result with a schema. */
    method GetDelegateRequests() returns (ds: Option<seq<Delegate>>)
      requires Valid()
      modifies `resultIdx
      ensures Valid() && (resultIdx, ds) == Fetch(results, old(resultIdx), context)
    {
      while resultIdx < |results|
        invariant Valid() && Fetch(results, resultIdx, context) == Fetch(results, old(resultIdx), context)
      {
        if results[resultIdx].schema.Some? {
          ds := MakeDelegates();
          if ds.Some? { resultIdx := resultIdx + 1; }
          return;
        }
        resultIdx := resultIdx + 1;
      }
      return Some([]);
    }

    method MakeDelegates() returns (ds: Option<seq<Delegate>>)
      requires resultIdx < |results| && results[resultIdx].schema.Some?
      ensures ds == DelegatesOf(results, resultIdx, context)
    {
      var schema, content := results[resultIdx].schema.value, results[resultIdx].content(context);
      if content.None? { return None; }
      match results[resultIdx].address(context) {
        case Itself =>
          return Some([Delegate(resultIdx, None, schema, content.value)]);
        case Services(urls) =>
          var list: seq<Delegate> := [];
          var si := 0;
          while si < |urls|
            invariant 0 <= si <= |urls| && |list| == si
            invariant forall k :: 0 <= k < si ==> list[k] == Delegate(resultIdx, Some(urls[k]), schema, content.value)
          {
            list := list + [Delegate(resultIdx, Some(urls[si]), schema, content.value)];
            si := si + 1;
          }
          assert list == DelegatesOf(results, resultIdx, context).value;
          return Some(list);
        case _ =>
          return None;
      }
    }

    /** The rounds of a load: what happens in a round changes the context, and a delegate may fail in it. */
    method RunRounds(course: Course<C>) returns (rounds: seq<seq<Delegate>>, ok: bool)
      requires Valid()
      modifies this
      ensures Valid() && rounds == Rounds(results, old(resultIdx), course, 0)
      ensures ok <==> !(rounds != [] && course.fails(|rounds| - 1))
    {
      rounds, ok := [], true;
      ghost var all := Rounds(results, resultIdx, course, 0);
      context := course.at(0);
      ghost var idx: nat := resultIdx;
      var delegates := GetDelegateRequests();
      while ok && delegates.Some? && delegates.value != []
        invariant Valid() && idx <= |results|
        invariant ok ==> (resultIdx, delegates) == Fetch(results, idx, course.at(|rounds|))
        invariant ok ==> all == rounds + Rounds(results, idx, course, |rounds|)
        invariant ok ==> !(rounds != [] && course.fails(|rounds| - 1))
        invariant !ok ==> all == rounds && rounds != [] && course.fails(|rounds| - 1)
        decreases |results| - resultIdx, if ok && IsRound(delegates) then 1 else 0
      {
        ok := !course.fails(|rounds|);
        ghost var more := Rounds(results, idx, course, |rounds|);
        if ok {
          assert more == [delegates.value] + Rounds(results, resultIdx, course, |rounds| + 1);
          Assoc(rounds, [delegates.value], Rounds(results, resultIdx, course, |rounds| + 1));
        }
        rounds := rounds + [delegates.value];
        if ok {
          context := course.at(|rounds|);
          idx := resultIdx;
          delegates := GetDelegateRequests();
        }
      }
      Unit(rounds);
    }
  }

  // ---- the counter between rounds ----

  /** One round: how many delegates it has and has issued, the ones whose answer is still to come, the ones that
      have counted down, the counter, and whether a delegate has failed. */
  datatype RoundState =
    RoundState(total: nat, issued: nat, open: set<nat>, counted: seq<nat>, count: int, failed: bool)

  function Begin(n: nat): RoundState { RoundState(n, 0, {}, [], n, false) }

  datatype RoundStep =
    | ServeHere          // served by this process itself; it counts down at once
    | SendAway           // given to the event loop
    | FailHere           // not served: the counter is reset and no other delegate is issued
    | Refused            // not accepted by the event loop: it counts down, and then the same
    | AnswerOf(k: nat)   // the event loop delivers an answer

  ghost predicate CanStep(st: RoundState, s: RoundStep)
  {
    match s
    case AnswerOf(k) => k in st.open
    case _ => st.issued < st.total && !st.failed
  }

  function StepOf(st: RoundState, s: RoundStep): RoundState
  {
    match s
    case ServeHere => st.(issued := st.issued + 1, counted := st.counted + [st.issued], count := st.count - 1)
    case SendAway => st.(issued := st.issued + 1, open := st.open + {st.issued})
    case FailHere => st.(count := 0, failed := true)
    case Refused =>
      st.(issued := st.issued + 1, counted := st.counted + [st.issued], count := 0, failed := true)
    case AnswerOf(k) => st.(open := st.open - {k}, counted := st.counted + [k], count := st.count - 1)
  }

  /** The wait behind the delegates of a round ends as soon as the counter is not positive. */
  predicate WaitEnds(st: RoundState) { (st.failed || st.issued == st.total) && st.count <= 0 }

  predicate NextRoundStarts(st: RoundState) { WaitEnds(st) && !st.failed }

  ghost predicate RoundInv(st: RoundState)
  {
    && st.issued <= st.total
    && (if st.failed then st.count <= 0 else st.count == |st.open| + (st.total - st.issued))
    && (forall k :: k in st.open ==> k < st.issued)
    && (forall k :: 0 <= k < st.issued ==> (k in st.counted <==> k !in st.open))
    && (forall k :: k in st.counted ==> k < st.issued)
    && (forall i, j :: 0 <= i < j < |st.counted| ==> st.counted[i] != st.counted[j])
  }

  lemma StepKeepsInvariant(st: RoundState, s: RoundStep)
    requires RoundInv(st) && CanStep(st, s)
    ensures RoundInv(StepOf(st, s))
  {
    match s
    case ServeHere => CountedOnce(st, st.issued);
    case Refused => CountedOnce(st, st.issued);
    case SendAway => assert st.issued !in st.open;
    case FailHere =>
    case AnswerOf(k) => CountedOnce(st, k);
  }

  lemma CountedOnce(st: RoundState, k: nat)
    requires RoundInv(st) && (k == st.issued || k in st.open)
    ensures forall j :: j in st.counted + [k] <==> j in st.counted || j == k
    ensures var counted := st.counted + [k];
            forall i, j :: 0 <= i < j < |counted| ==> counted[i] != counted[j]
  {
    assert k !in st.counted;
    forall i | 0 <= i < |st.counted| ensures st.counted[i] != k { assert st.counted[i] in st.counted; }
  }

  function StepsOf(st: RoundState, steps: seq<RoundStep>): RoundState
    decreases steps
  {
    if steps == [] then st else StepsOf(StepOf(st, steps[0]), steps[1..])
  }

  ghost predicate CanRun(st: RoundState, steps: seq<RoundStep>)
    decreases steps
  {
    steps == [] || (CanStep(st, steps[0]) && CanRun(StepOf(st, steps[0]), steps[1..]))
  }

  lemma {:induction false} StepsKeepInvariant(st: RoundState, steps: seq<RoundStep>)
    requires RoundInv(st) && CanRun(st, steps)
    ensures RoundInv(StepsOf(st, steps)) && StepsOf(st, steps).total == st.total
    decreases steps
  {
    if steps != [] {
      StepKeepsInvariant(st, steps[0]);
      StepsKeepInvariant(StepOf(st, steps[0]), steps[1..]);
    }
  }

  /** The counter is a barrier as long as no delegate fails: however the answers of a round interleave with its
      requests, the next round starts exactly when every delegate of this one has been issued and has counted down,
      each of them once. A failure ends the wait at once, whatever is still open. */
  lemma CounterIsBarrier(n: nat, steps: seq<RoundStep>)
    requires CanRun(Begin(n), steps)
    ensures var st := StepsOf(Begin(n), steps);
            && st.total == n
            && (NextRoundStarts(st) <==> !st.failed && forall k: nat :: k < n ==> k in st.counted)
            && (NextRoundStarts(st) ==> st.open == {} && st.count == 0)
            && (st.failed ==> WaitEnds(st))
            && (forall i, j :: 0 <= i < j < |st.counted| ==> st.counted[i] != st.counted[j])
  {
    StepsKeepInvariant(Begin(n), steps);
    var st := StepsOf(Begin(n), steps);
    AllCounted(st);
  }

  lemma AllCounted(st: RoundState)
    requires RoundInv(st)
    ensures NextRoundStarts(st) <==> !st.failed && forall k: nat :: k < st.total ==> k in st.counted
    ensures NextRoundStarts(st) ==> st.open == {} && st.count == 0
  {
    if !st.failed && forall k: nat :: k < st.total ==> k in st.counted {
      assert st.issued < st.total ==> st.issued in st.counted;
      assert forall k :: k in st.open ==> k in st.counted;
      assert st.open == {};
    }
  }

  /** A failure can leave answers outstanding: they count the counter down below zero. */
  lemma FailureLeavesOpen(n: nat)
    requires n >= 2
    ensures CanRun(Begin(n), [SendAway, FailHere])
    ensures var st := StepsOf(Begin(n), [SendAway, FailHere]);
            && WaitEnds(st) && st.open == {0} && CanStep(st, AnswerOf(0)) && StepOf(st, AnswerOf(0)).count == -1
  {
    assert [SendAway, FailHere][1..] == [FailHere] && [FailHere][1..] == [];
    assert CanRun(StepOf(Begin(n), SendAway), [FailHere]);
    assert StepsOf(StepOf(Begin(n), SendAway), [FailHere]) == StepOf(StepOf(Begin(n), SendAway), FailHere);
  }
}
