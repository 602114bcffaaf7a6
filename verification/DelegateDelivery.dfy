/** The rounds of a load on top of the event loop that answers their requests. */
module DelegateDelivery {
  import opened Wrappers
  import Loop = EventLoop
  import Rounds = DelegateRounds

  type Jobs = map<nat, Loop.Job>

  /** The event loop, the current round, and the jobs of the delegates that were sent away. */
  datatype System = System(loop: Loop.State, round: Rounds.RoundState, jobs: Jobs)

  datatype Step =
    | ServeHere
    | FailHere
    | Refused
    | SendAway(job: Loop.Job)
    | LoopEvent(event: Loop.Event)

  /** The delegate that waits for the answer of a job. */
  ghost function Owner(jobs: Jobs, job: Loop.Job): (r: Option<nat>)
    ensures r.Some? ==> r.value in jobs && jobs[r.value] == job
    ensures r.None? ==> forall k :: k in jobs ==> jobs[k] != job
  {
    if k :| k in jobs && jobs[k] == job then Some(k) else None
  }

  /** Answers are delivered one after the other; each of them counts down the round of its delegate. */
  ghost function Deliver(round: Rounds.RoundState, jobs: Jobs, answers: seq<Loop.Answer>): Rounds.RoundState
    decreases answers
  {
    if answers == [] then round
    else Deliver(match Owner(jobs, answers[0].job)
                 case Some(k) => Rounds.StepOf(round, Rounds.AnswerOf(k))
                 case None => round, jobs, answers[1..])
  }

  ghost predicate CanStep(s: System, step: Step)
  {
    match step
    case ServeHere => Rounds.CanStep(s.round, Rounds.ServeHere)
    case FailHere => Rounds.CanStep(s.round, Rounds.FailHere)
    case Refused => Rounds.CanStep(s.round, Rounds.Refused)
    case SendAway(job) => Rounds.CanStep(s.round, Rounds.SendAway) && Loop.Fresh(s.loop, job)
    case LoopEvent(e) => Loop.Possible(s.loop, e)
  }

  /** What the loop answers in a step is delivered. */
  ghost function Next(s: System, step: Step): System
    requires Loop.Conserved(s.loop) && CanStep(s, step)
  {
    match step
    case ServeHere => s.(round := Rounds.StepOf(s.round, Rounds.ServeHere))
    case FailHere => s.(round := Rounds.StepOf(s.round, Rounds.FailHere))
    case Refused => s.(round := Rounds.StepOf(s.round, Rounds.Refused))
    case SendAway(job) =>
      System(Loop.Send(s.loop, job), Rounds.StepOf(s.round, Rounds.SendAway), s.jobs[s.round.issued := job])
    case LoopEvent(e) =>
      AnsweredGrows(s.loop, e);
      var loop := Loop.Next(s.loop, e);
      System(loop, Deliver(s.round, s.jobs, loop.answered[|s.loop.answered|..]), s.jobs)
  }

  lemma AnsweredGrows(st: Loop.State, e: Loop.Event)
    ensures st.answered <= Loop.Next(st, e).answered && st.accepted <= Loop.Next(st, e).accepted
  {
    match e
    case Activating(taken) => ActivationGrows(st, st.waiting, taken);
    case _ =>
  }

  lemma {:induction false} ActivationGrows(st: Loop.State, jobs: seq<Loop.Job>, taken: set<nat>)
    ensures st.answered <= Loop.ActivateAll(st, jobs, taken).answered
    ensures st.accepted == Loop.ActivateAll(st, jobs, taken).accepted
    decreases jobs
  {
    if jobs != [] { ActivationGrows(Loop.ActivateOne(st, jobs[0], taken), jobs[1..], taken); }
  }

  ghost predicate IsAnswered(answered: seq<Loop.Answer>, job: Loop.Job)
  {
    exists i :: 0 <= i < |answered| && answered[i].job == job
  }

  /** A delegate is open exactly as long as its job has no answer. */
  ghost predicate OpenUntilAnswered(round: Rounds.RoundState, jobs: Jobs, answered: seq<Loop.Answer>)
  {
    && (forall k :: k in round.open ==> k in jobs)
    && (forall k :: k in jobs ==> (k in round.open <==> !IsAnswered(answered, jobs[k])))
  }

  ghost predicate OwnJobs(jobs: Jobs) { forall k, l :: k in jobs && l in jobs && jobs[k] == jobs[l] ==> k == l }

  ghost predicate Inv(s: System)
  {
    && Loop.Conserved(s.loop) && Rounds.RoundInv(s.round) && OwnJobs(s.jobs)
    && (forall k :: k in s.jobs ==> k < s.round.issued && s.jobs[k] in s.loop.accepted)
    && OpenUntilAnswered(s.round, s.jobs, s.loop.answered)
  }

  lemma AnsweredOneMore(done: seq<Loop.Answer>, a: Loop.Answer, job: Loop.Job)
    ensures IsAnswered(done + [a], job) <==> IsAnswered(done, job) || job == a.job
  {
    if IsAnswered(done, job) {
      var i :| 0 <= i < |done| && done[i].job == job;
      assert (done + [a])[i].job == job;
    }
    assert (done + [a])[|done|] == a;
  }

  /** Because no job is answered twice, an answer always finds its delegate open. */
  lemma {:induction false} DeliveryKeeps(round: Rounds.RoundState, jobs: Jobs, done: seq<Loop.Answer>,
                                         more: seq<Loop.Answer>)
    requires Loop.AnsweredOnce(done + more) && Rounds.RoundInv(round)
    requires OwnJobs(jobs) && OpenUntilAnswered(round, jobs, done)
    ensures var r := Deliver(round, jobs, more);
            && Rounds.RoundInv(r) && OpenUntilAnswered(r, jobs, done + more)
            && r.total == round.total && r.issued == round.issued
    decreases more
  {
    if more == [] {
      Unit(done);
    } else {
      var a, o := more[0], Owner(jobs, more[0].job);
      assert done + more == done + [a] + more[1..];
      assert !IsAnswered(done, a.job) by { assert (done + more)[|done|] == a; NotTwice(done, more); }
      var next := match o case Some(k) => Rounds.StepOf(round, Rounds.AnswerOf(k)) case None => round;
      if o.Some? { Rounds.StepKeepsInvariant(round, Rounds.AnswerOf(o.value)); }
      forall k | k in jobs ensures k in next.open <==> !IsAnswered(done + [a], jobs[k]) {
        AnsweredOneMore(done, a, jobs[k]);
      }
      DeliveryKeeps(next, jobs, done + [a], more[1..]);
    }
  }

  lemma NotTwice(done: seq<Loop.Answer>, more: seq<Loop.Answer>)
    requires Loop.AnsweredOnce(done + more) && more != []
    ensures !IsAnswered(done, more[0].job)
  {
    var all := done + more;
    assert forall i :: 0 <= i < |done| ==> all[i] == done[i] && all[i].job != all[|done|].job;
  }

  lemma StepKeepsInvariant(s: System, step: Step)
    requires Inv(s) && CanStep(s, step)
    ensures Inv(Next(s, step)) && Next(s, step).round.total == s.round.total
  {
    match step
    case ServeHere => Rounds.StepKeepsInvariant(s.round, Rounds.ServeHere);
    case FailHere => Rounds.StepKeepsInvariant(s.round, Rounds.FailHere);
    case Refused => Rounds.StepKeepsInvariant(s.round, Rounds.Refused);
    case SendAway(job) => SendingKeeps(s, job);
    case LoopEvent(e) => EventKeeps(s, e);
  }

  lemma SendingKeeps(s: System, job: Loop.Job)
    requires Inv(s) && CanStep(s, SendAway(job))
    ensures Inv(Next(s, SendAway(job)))
  {
    hide Loop.Conserved, Rounds.RoundInv, Loop.Fresh, OpenUntilAnswered, Loop.Answered, OwnJobs;
    NewJob(s.loop, job);
    SendingOpens(s.round, s.jobs, s.loop.answered, job);
    OwnJobAdded(s.jobs, s.round.issued, job, s.loop.accepted);
    Loop.SendConserves(s.loop, job);
    Rounds.StepKeepsInvariant(s.round, Rounds.SendAway);
  }

  lemma NewJob(loop: Loop.State, job: Loop.Job)
    requires Loop.Conserved(loop) && Loop.Fresh(loop, job)
    ensures job !in loop.accepted && !IsAnswered(loop.answered, job)
  {
    assert !Loop.Answered(loop, job);
  }

  lemma OwnJobAdded(jobs: Jobs, k: nat, job: Loop.Job, accepted: set<Loop.Job>)
    requires OwnJobs(jobs) && job !in accepted && forall l :: l in jobs ==> l < k && jobs[l] in accepted
    ensures OwnJobs(jobs[k := job])
  {
  }

  lemma SendingOpens(round: Rounds.RoundState, jobs: Jobs, answered: seq<Loop.Answer>, job: Loop.Job)
    requires OpenUntilAnswered(round, jobs, answered) && !IsAnswered(answered, job)
    requires forall k :: k in jobs ==> k < round.issued
    ensures OpenUntilAnswered(Rounds.StepOf(round, Rounds.SendAway), jobs[round.issued := job], answered)
  {
  }

  lemma EventKeeps(s: System, e: Loop.Event)
    requires Inv(s) && CanStep(s, LoopEvent(e))
    ensures Inv(Next(s, LoopEvent(e))) && Next(s, LoopEvent(e)).round.total == s.round.total
  {
    var loop := Loop.Next(s.loop, e);
    AnsweredGrows(s.loop, e);
    Loop.RunConserves(s.loop, [e]);
    assert Loop.RunOf(s.loop, [e]) == loop by { assert [e][1..] == []; }
    var more := loop.answered[|s.loop.answered|..];
    assert loop.answered == s.loop.answered + more;
    DeliveryKeeps(s.round, s.jobs, s.loop.answered, more);
  }

  ghost predicate Runnable(s: System, steps: seq<Step>)
    requires Inv(s)
    decreases steps
  {
    steps == []
    || (CanStep(s, steps[0]) && (StepKeepsInvariant(s, steps[0]); Runnable(Next(s, steps[0]), steps[1..])))
  }

  ghost function RunOf(s: System, steps: seq<Step>): (r: System)
    requires Inv(s) && Runnable(s, steps)
    ensures Inv(r) && r.round.total == s.round.total
    decreases steps
  {
    if steps == [] then s
    else
      StepKeepsInvariant(s, steps[0]);
      RunOf(Next(s, steps[0]), steps[1..])
  }

  /** A round begins: the loop may be busy with other requests. */
  function Begin(loop: Loop.State, n: nat): System { System(loop, Rounds.Begin(n), map[]) }

  lemma BeginKeeps(loop: Loop.State, n: nat)
    requires Loop.Conserved(loop)
    ensures Inv(Begin(loop, n))
  {
  }

  ghost predicate IsRun(loop: Loop.State, n: nat, steps: seq<Step>)
    requires Loop.Conserved(loop)
  {
    BeginKeeps(loop, n);
    Runnable(Begin(loop, n), steps)
  }

  ghost function AfterRun(loop: Loop.State, n: nat, steps: seq<Step>): (s: System)
    requires Loop.Conserved(loop) && IsRun(loop, n, steps)
    ensures Inv(s) && s.round.total == n
  {
    BeginKeeps(loop, n);
    RunOf(Begin(loop, n), steps)
  }

  /** Answers as barrier, in one state: each delegate that was sent away counts down with its answer. */
  lemma AnswersCount(s: System)
    requires Inv(s)
    ensures forall k: nat :: k < s.round.issued ==>
              (k in s.round.counted <==> k !in s.jobs || Loop.Answered(s.loop, s.jobs[k]))
    ensures forall k :: k in s.jobs ==> (k in s.round.open <==> !Loop.Answered(s.loop, s.jobs[k]))
  {
    forall k | k in s.jobs ensures IsAnswered(s.loop.answered, s.jobs[k]) == Loop.Answered(s.loop, s.jobs[k]) {
    }
  }

  lemma NextStartsExactly(s: System)
    requires Inv(s)
    ensures Rounds.NextRoundStarts(s.round)
       <==> !s.round.failed && s.round.issued == s.round.total
            && forall k :: k in s.jobs ==> Loop.Answered(s.loop, s.jobs[k])
  {
    AnswersCount(s);
    if forall k :: k in s.jobs ==> Loop.Answered(s.loop, s.jobs[k]) {
      assert s.round.open == {};
    }
    if Rounds.NextRoundStarts(s.round) {
      assert |s.round.open| == 0;
      assert s.round.open == {};
    }
  }

  /** Main result: however the steps of the loop, other requests and those of the round interleave, the next round
      starts exactly when no delegate of this one has failed, all have been issued and each that was sent away has its
      answer; the loop gives it one answer only, and each delegate counts down once. */
  lemma AnswersAreBarrier(loop: Loop.State, n: nat, steps: seq<Step>)
    requires Loop.Conserved(loop) && IsRun(loop, n, steps)
    ensures var s := AfterRun(loop, n, steps);
            && (Rounds.NextRoundStarts(s.round)
                <==> !s.round.failed && s.round.issued == n
                     && forall k :: k in s.jobs ==> Loop.Answered(s.loop, s.jobs[k]))
            && Loop.AnsweredOnce(s.loop.answered)
            && (forall k: nat :: k < s.round.issued ==>
                  (k in s.round.counted <==> k !in s.jobs || Loop.Answered(s.loop, s.jobs[k])))
            && (forall i, j :: 0 <= i < j < |s.round.counted| ==> s.round.counted[i] != s.round.counted[j])
  {
    var s := AfterRun(loop, n, steps);
    AnswersCount(s);
    NextStartsExactly(s);
  }
}
