module ConfigurationLoad {

  // A whole load of a configuration: its rounds, the context that their answers extend, and the event loop.

  import opened Wrappers
  import opened DelegateRounds
  import EventLoop
  import DelegateDelivery

  /** The current round on top of the event loop, the context and the cursor, what has been fetched in which contexts,
      the jobs of earlier rounds, and whether the load has ended. */
  datatype State<C> = State(system: DelegateDelivery.System, context: C, idx: nat, rounds: seq<seq<Delegate>>,
                            contexts: seq<C>, earlier: set<EventLoop.Job>, ended: bool)

  datatype Step<C> =
    | Inside(step: DelegateDelivery.Step, context: C)   // in the round or the event loop, with the context behind it
    | NextRound                                         // the wait for the round ends

  /** The next round is fetched in the context of the moment. */
  function FetchRound<C>(results: Results<C>, s: State<C>): State<C>
    requires s.idx <= |results|
  {
    var (next, ds) := Fetch(results, s.idx, s.context);
    var loop := s.system.loop;
    if IsRound(ds) then
      State(DelegateDelivery.Begin(loop, |ds.value|), s.context, next, s.rounds + [ds.value], s.contexts + [s.context],
            s.earlier + JobsOf(s.system), false)
    else
      State(DelegateDelivery.Begin(loop, 0), s.context, s.idx, s.rounds, s.contexts + [s.context],
            s.earlier + JobsOf(s.system), true)
  }

  function JobsOf(system: DelegateDelivery.System): set<EventLoop.Job>
  {
    set k | k in system.jobs :: system.jobs[k]
  }

  function Start<C>(results: Results<C>, loop: EventLoop.State, context: C): State<C>
  {
    FetchRound(results, State(DelegateDelivery.Begin(loop, 0), context, 0, [], [], {}, false))
  }

  ghost predicate CanStep<C>(s: State<C>, step: Step<C>)
  {
    match step
    case Inside(inner, _) => DelegateDelivery.CanStep(s.system, inner) && (s.ended ==> inner.LoopEvent?)
    case NextRound => !s.ended && WaitEnds(s.system.round)
  }

  ghost function Next<C>(results: Results<C>, s: State<C>, step: Step<C>): State<C>
    requires Inv(results, s) && CanStep(s, step)
  {
    match step
    case Inside(inner, context) => s.(system := DelegateDelivery.Next(s.system, inner), context := context)
    case NextRound => if s.system.round.failed then s.(ended := true) else FetchRound(results, s)
  }

  /** The rounds have been fetched one after the other in these contexts, from one cursor position to the other. */
  ghost predicate Fetched<C>(results: Results<C>, from: nat, contexts: seq<C>, rounds: seq<seq<Delegate>>, idx: nat)
    decreases rounds
  {
    from <= |results| &&
    if rounds == [] then idx == from
    else
      && contexts != [] && rounds[0] != []
      && Fetch(results, from, contexts[0]).1 == Some(rounds[0])
      && Fetched(results, Fetch(results, from, contexts[0]).0, contexts[1..], rounds[1..], idx)
  }

  /** The load has ended because nothing more was fetched. */
  ghost predicate NothingLeft<C>(results: Results<C>, s: State<C>)
  {
    && s.ended && |s.contexts| == |s.rounds| + 1 && s.idx <= |results|
    && !IsRound(Fetch(results, s.idx, s.contexts[|s.rounds|]).1)
    && s.system.round.total == 0 && !s.system.round.failed
  }

  /** Or because a delegate of the last round failed. */
  ghost predicate Failed<C>(s: State<C>) { s.ended && s.system.round.failed && |s.contexts| == |s.rounds| }

  ghost predicate AllAnswered(loop: EventLoop.State, jobs: set<EventLoop.Job>)
  {
    forall j :: j in jobs ==> EventLoop.Answered(loop, j)
  }

  ghost predicate Inv<C>(results: Results<C>, s: State<C>)
  {
    && DelegateDelivery.Inv(s.system) && s.idx <= |results|
    && Fetched(results, 0, s.contexts, s.rounds, s.idx)
    && AllAnswered(s.system.loop, s.earlier)
    && (if s.ended then NothingLeft(results, s) || Failed(s) else |s.contexts| == |s.rounds|)
    && (!NothingLeft(results, s) ==> s.rounds != [] && s.system.round.total == |s.rounds[|s.rounds| - 1]|)
  }

  lemma {:induction false} FetchedMore<C>(results: Results<C>, from: nat, contexts: seq<C>, rounds: seq<seq<Delegate>>,
                                          idx: nat, context: C)
    requires Fetched(results, from, contexts, rounds, idx) && |contexts| == |rounds| && idx <= |results|
    ensures Fetched(results, from, contexts + [context], rounds, idx)
    ensures var (next, ds) := Fetch(results, idx, context);
            IsRound(ds) ==> Fetched(results, from, contexts + [context], rounds + [ds.value], next)
    decreases rounds
  {
    var more := contexts + [context];
    if rounds == [] {
      var ds := Fetch(results, idx, context).1;
      if IsRound(ds) { assert ([] + [ds.value])[1..] == [] && rounds + [ds.value] == [ds.value]; }
    } else {
      var (next, ds) := Fetch(results, from, contexts[0]);
      FetchedMore(results, next, contexts[1..], rounds[1..], idx, context);
      assert more[1..] == contexts[1..] + [context];
      var last := Fetch(results, idx, context).1;
      if IsRound(last) { assert (rounds + [last.value])[1..] == rounds[1..] + [last.value]; }
    }
  }

  lemma AnsweredStays(loop: EventLoop.State, next: EventLoop.State, jobs: set<EventLoop.Job>)
    requires AllAnswered(loop, jobs) && loop.answered <= next.answered
    ensures AllAnswered(next, jobs)
  {
    forall j | j in jobs ensures EventLoop.Answered(next, j) {
      var i :| 0 <= i < |loop.answered| && loop.answered[i].job == j;
      assert next.answered[i].job == j;
    }
  }

  lemma RoundFetched<C>(results: Results<C>, s: State<C>)
    requires EventLoop.Conserved(s.system.loop) && s.idx <= |results| && |s.contexts| == |s.rounds|
    requires Fetched(results, 0, s.contexts, s.rounds, s.idx)
    requires AllAnswered(s.system.loop, s.earlier + JobsOf(s.system))
    ensures Inv(results, FetchRound(results, s))
  {
    var (next, ds) := Fetch(results, s.idx, s.context);
    FetchedMore(results, 0, s.contexts, s.rounds, s.idx, s.context);
    DelegateDelivery.BeginKeeps(s.system.loop, if IsRound(ds) then |ds.value| else 0);
    hide DelegateDelivery.Inv, Fetched, AllAnswered, Fetch;
    var f := FetchRound(results, s);
    if !IsRound(ds) { assert f.contexts[|f.rounds|] == s.context; }
  }

  lemma StartKeeps<C>(results: Results<C>, loop: EventLoop.State, context: C)
    requires EventLoop.Conserved(loop)
    ensures Inv(results, Start(results, loop, context))
  {
    RoundFetched(results, State(DelegateDelivery.Begin(loop, 0), context, 0, [], [], {}, false));
  }

  lemma StepKeepsInvariant<C>(results: Results<C>, s: State<C>, step: Step<C>)
    requires Inv(results, s) && CanStep(s, step)
    ensures Inv(results, Next(results, s, step))
  {
    match step
    case Inside(inner, _) => InsideKeeps(results, s, step);
    case NextRound =>
      if !s.system.round.failed {
        DelegateDelivery.NextStartsExactly(s.system);
        RoundFetched(results, s);
      }
  }

  lemma InsideKeeps<C>(results: Results<C>, s: State<C>, step: Step<C>)
    requires Inv(results, s) && step.Inside? && CanStep(s, step)
    ensures Inv(results, Next(results, s, step))
  {
    DelegateDelivery.StepKeepsInvariant(s.system, step.step);
    InsideGrows(s.system, step.step);
    var next := Next(results, s, step);
    AnsweredStays(s.system.loop, next.system.loop, s.earlier);
    hide DelegateDelivery.Inv, DelegateDelivery.Next, DelegateDelivery.CanStep, AllAnswered, Fetched, Fetch;
  }

  /** Answers are never lost, and the event loop alone makes no delegate fail and none good again. */
  lemma InsideGrows(s: DelegateDelivery.System, step: DelegateDelivery.Step)
    requires DelegateDelivery.Inv(s) && DelegateDelivery.CanStep(s, step)
    ensures var next := DelegateDelivery.Next(s, step);
            && s.loop.answered <= next.loop.answered && next.round.total == s.round.total
            && (step.LoopEvent? ==> next.round.failed == s.round.failed)
  {
    DelegateDelivery.StepKeepsInvariant(s, step);
    match step
    case LoopEvent(e) =>
      DelegateDelivery.AnsweredGrows(s.loop, e);
      DeliveryFailsNothing(s.round, s.jobs, EventLoop.Next(s.loop, e).answered[|s.loop.answered|..]);
    case _ =>
  }

  lemma {:induction false} DeliveryFailsNothing(round: RoundState, jobs: DelegateDelivery.Jobs,
                                                answers: seq<EventLoop.Answer>)
    ensures DelegateDelivery.Deliver(round, jobs, answers).failed == round.failed
    decreases answers
  {
    if answers != [] {
      var next := match DelegateDelivery.Owner(jobs, answers[0].job)
                  case Some(k) => StepOf(round, AnswerOf(k))
                  case None => round;
      DeliveryFailsNothing(next, jobs, answers[1..]);
    }
  }

  // ---- runs ----

  ghost predicate Runnable<C>(results: Results<C>, s: State<C>, steps: seq<Step<C>>)
    requires Inv(results, s)
    decreases steps
  {
    steps == []
    || (CanStep(s, steps[0]) &&
        (StepKeepsInvariant(results, s, steps[0]); Runnable(results, Next(results, s, steps[0]), steps[1..])))
  }

  ghost function RunOf<C>(results: Results<C>, s: State<C>, steps: seq<Step<C>>): (r: State<C>)
    requires Inv(results, s) && Runnable(results, s, steps)
    ensures Inv(results, r)
    decreases steps
  {
    if steps == [] then s
    else
      StepKeepsInvariant(results, s, steps[0]);
      RunOf(results, Next(results, s, steps[0]), steps[1..])
  }

  ghost predicate IsLoad<C>(results: Results<C>, loop: EventLoop.State, context: C, steps: seq<Step<C>>)
    requires EventLoop.Conserved(loop)
  {
    StartKeeps(results, loop, context);
    Runnable(results, Start(results, loop, context), steps)
  }

  ghost function AfterLoad<C>(results: Results<C>, loop: EventLoop.State, context: C, steps: seq<Step<C>>):
    (s: State<C>)
    requires EventLoop.Conserved(loop) && IsLoad(results, loop, context, steps)
    ensures Inv(results, s)
  {
    StartKeeps(results, loop, context);
    RunOf(results, Start(results, loop, context), steps)
  }

  /** The contexts in which a load has fetched its rounds, and whether its last round has failed. */
  ghost function CourseOf<C>(s: State<C>): Course<C>
  {
    Course((k: nat) => if k < |s.contexts| then s.contexts[k] else s.context,
           (k: nat) => s.system.round.failed && k + 1 == |s.rounds|)
  }

  lemma {:induction false} FetchedRounds<C>(results: Results<C>, from: nat, course: Course<C>, k: nat,
                                            contexts: seq<C>, rounds: seq<seq<Delegate>>, idx: nat)
    requires Fetched(results, from, contexts, rounds, idx) && |rounds| <= |contexts|
    requires forall i: nat :: k <= i < k + |contexts| ==> course.at(i) == contexts[i - k]
    requires forall i: nat :: k <= i < k + |rounds| - 1 ==> !course.fails(i)
    ensures idx <= |results|
    ensures Rounds(results, from, course, k)
         == if rounds != [] && course.fails(k + |rounds| - 1) then rounds
            else rounds + Rounds(results, idx, course, k + |rounds|)
    decreases rounds
  {
    hide Fetch;
    if rounds == [] {
      Unit(Rounds(results, idx, course, k));
    } else {
      var next := Fetch(results, from, contexts[0]).0;
      assert course.at(k) == contexts[0];
      FetchedRounds(results, next, course, k + 1, contexts[1..], rounds[1..], idx);
      assert rounds == [rounds[0]] + rounds[1..];
      if |rounds| == 1 && course.fails(k) {
        assert rounds[1..] == [];
      } else {
        Assoc([rounds[0]], rounds[1..], Rounds(results, idx, course, k + |rounds|));
      }
    }
  }

  /** Main result: however answers, other requests and the steps of a load interleave, it fetches its rounds one after
      the other, each in the context that the answers before it have made; when a round is fetched, all requests of
      the earlier ones have their answers. At the end exactly the rounds of its course have been made: without failure
      all requests are answered, else exactly those that are still open in the last round are not. */
  lemma LoadIsOrdered<C>(results: Results<C>, loop: EventLoop.State, context: C, steps: seq<Step<C>>)
    requires EventLoop.Conserved(loop) && IsLoad(results, loop, context, steps)
    ensures var s := AfterLoad(results, loop, context, steps);
            && s.rounds <= Rounds(results, 0, CourseOf(s), 0)
            && (s.ended ==> s.rounds == Rounds(results, 0, CourseOf(s), 0))
            && AllAnswered(s.system.loop, s.earlier)
            && (s.ended && !s.system.round.failed ==> AllAnswered(s.system.loop, JobsOf(s.system)))
            && (forall k :: k in s.system.jobs ==>
                  (k in s.system.round.open <==> !EventLoop.Answered(s.system.loop, s.system.jobs[k])))
  {
    var s := AfterLoad(results, loop, context, steps);
    RoundsMade(results, s);
    DelegateDelivery.AnswersCount(s.system);
    if s.ended && !s.system.round.failed { AllAnsweredAtEnd(results, s); }
  }

  lemma RoundsMade<C>(results: Results<C>, s: State<C>)
    requires Inv(results, s)
    ensures s.rounds <= Rounds(results, 0, CourseOf(s), 0)
    ensures s.ended ==> s.rounds == Rounds(results, 0, CourseOf(s), 0)
  {
    hide DelegateDelivery.Inv, AllAnswered, Fetch, Fetched;
    var course := CourseOf(s);
    assert |s.rounds| <= |s.contexts|;
    FetchedRounds(results, 0, course, 0, s.contexts, s.rounds, s.idx);
    if NothingLeft(results, s) { assert Rounds(results, s.idx, course, |s.rounds|) == []; }
  }

  lemma AllAnsweredAtEnd<C>(results: Results<C>, s: State<C>)
    requires Inv(results, s) && s.ended && !s.system.round.failed
    ensures AllAnswered(s.system.loop, JobsOf(s.system))
  {
    hide Fetch, Fetched;
    DelegateDelivery.NextStartsExactly(s.system);
  }

  /** A load that fails while an answer is outstanding ends without it. */
  lemma OutstandingAtEnd<C>(results: Results<C>, s: State<C>)
    requires Inv(results, s) && CanStep(s, NextRound) && s.system.round.failed
    ensures var next := Next(results, s, NextRound);
            && next.ended
            && (AllAnswered(next.system.loop, JobsOf(next.system)) <==> s.system.round.open == {})
  {
    DelegateDelivery.AnswersCount(s.system);
    var jobs := s.system.jobs;
    if k :| k in s.system.round.open {
      assert jobs[k] in JobsOf(s.system);
      assert !AllAnswered(s.system.loop, JobsOf(s.system));
    }
  }
}
