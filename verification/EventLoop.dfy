module EventLoop {

  // The event loop for delegated requests: jobs wait, are activated on a connection and are answered.

  import opened Wrappers

  /** A job with its connection handle. */
  datatype Job = Job(id: nat, handle: nat)

  datatype Reason = Response(result: int) | ConnectionRefused | ServiceShutdown | NotStarted

  datatype Answer = Answer(job: Job, reason: Reason)

  /** A message of the connection library about a handle; other kinds of messages are only logged. */
  datatype Message = Finished(handle: nat, result: int) | Unknown

  datatype State = State(accepted: set<Job>, waiting: seq<Job>, activated: map<nat, Job>, answered: seq<Answer>)

  const START := State({}, [], map[], [])

  // ---- steps ----

  function Send(st: State, job: Job): State
  {
    st.(accepted := st.accepted + {job}, waiting := st.waiting + [job])
  }

  /** A waiting job is bound to its handle, or answered if the handle is not among the ones taken. */
  function ActivateOne(st: State, job: Job, taken: set<nat>): State
  {
    if job.handle in taken then st.(activated := st.activated[job.handle := job])
    else st.(answered := st.answered + [Answer(job, ConnectionRefused)])
  }

  function ActivateAll(st: State, jobs: seq<Job>, taken: set<nat>): State
    decreases jobs
  {
    if jobs == [] then st else ActivateAll(ActivateOne(st, jobs[0], taken), jobs[1..], taken)
  }

  function Activate(st: State, taken: set<nat>): State
  {
    ActivateAll(st, st.waiting, taken).(waiting := [])
  }

  function Handle(st: State, msg: Message): State
  {
    if msg.Finished? && msg.handle in st.activated
    then st.(activated := st.activated - {msg.handle},
             answered := st.answered + [Answer(st.activated[msg.handle], Response(msg.result))])
    else st
  }

  function HandleAll(st: State, msgs: seq<Message>): State
    decreases msgs
  {
    if msgs == [] then st else HandleAll(Handle(st, msgs[0]), msgs[1..])
  }

  /** Answers for the activated jobs in the order of the jobs given. */
  function Shutdown(st: State, order: seq<Job>): State
  {
    st.(activated := map[], answered := st.answered + seq(|order|, i requires 0 <= i < |order| =>
      Answer(order[i], ServiceShutdown)))
  }

  predicate NoDuplicates<T(==)>(s: seq<T>) { forall i, j :: 0 <= i < j < |s| ==> s[i] != s[j] }

  ghost predicate OrderOf(st: State, order: seq<Job>)
  {
    NoDuplicates(order) && forall j :: j in order <==> Active(st, j)
  }

  // ---- conservation ----

  predicate Active(st: State, j: Job) { j.handle in st.activated && st.activated[j.handle] == j }

  ghost predicate Answered(st: State, j: Job) { exists i :: 0 <= i < |st.answered| && st.answered[i].job == j }

  ghost predicate AnsweredOnce(answered: seq<Answer>)
  {
    forall i, k :: 0 <= i < k < |answered| ==> answered[i].job != answered[k].job
  }

  /** The jobs accepted are the waiting, the activated and the answered ones; no job is in two places or twice in
      one, and jobs that are not answered own different handles. */
  ghost predicate Conserved(st: State)
  {
    && (forall j :: j in st.accepted <==> j in st.waiting || Active(st, j) || Answered(st, j))
    && (forall j :: j in st.waiting ==> !Active(st, j) && !Answered(st, j))
    && (forall j :: Active(st, j) ==> !Answered(st, j))
    && NoDuplicates(st.waiting) && AnsweredOnce(st.answered)
    && OwnHandles(st.activated)
    && (forall i, k :: 0 <= i < k < |st.waiting| ==> st.waiting[i].handle != st.waiting[k].handle)
    && (forall i :: 0 <= i < |st.waiting| ==> st.waiting[i].handle !in st.activated)
  }

  /** A new job is no earlier one and has a handle of its own. */
  ghost predicate Fresh(st: State, job: Job)
  {
    && job !in st.accepted && job.handle !in st.activated
    && forall i :: 0 <= i < |st.waiting| ==> st.waiting[i].handle != job.handle
  }

  lemma SendConserves(st: State, job: Job)
    requires Conserved(st) && Fresh(st, job)
    ensures Conserved(Send(st, job))
  {
    var next := Send(st, job);
    forall j ensures j in next.waiting <==> j in st.waiting || j == job {}
    forall j ensures Answered(next, j) == Answered(st, j) && Active(next, j) == Active(st, j) {}
  }

  lemma AnsweredMore(st: State, next: State, a: Answer, j: Job)
    requires next.answered == st.answered + [a]
    ensures Answered(next, j) <==> Answered(st, j) || j == a.job
  {
    if Answered(st, j) {
      var i :| 0 <= i < |st.answered| && st.answered[i].job == j;
      assert next.answered[i].job == j;
    }
    assert next.answered[|st.answered|] == a;
  }

  /** The state while the waiting list is passed: the jobs from n on still wait. */
  ghost function Rest(st: State, jobs: seq<Job>): State { st.(waiting := jobs) }

  lemma ActivateOneConserves(st: State, jobs: seq<Job>, taken: set<nat>)
    requires jobs != [] && Conserved(Rest(st, jobs))
    ensures Conserved(Rest(ActivateOne(st, jobs[0], taken), jobs[1..]))
  {
    var job, next := jobs[0], ActivateOne(st, jobs[0], taken);
    var before, after := Rest(st, jobs), Rest(next, jobs[1..]);
    assert before.waiting[0] == job;
    assert forall j :: j in jobs <==> j == job || j in jobs[1..];
    assert job !in jobs[1..];
    if job.handle in taken {
      forall j ensures Answered(after, j) == Answered(before, j) {}
      forall j ensures Active(after, j) <==> Active(before, j) || j == job {}
      forall i | 0 <= i < |after.waiting| ensures after.waiting[i].handle !in after.activated {
        assert after.waiting[i] == before.waiting[i + 1];
      }
    } else {
      forall j ensures Answered(after, j) <==> Answered(before, j) || j == job {
        AnsweredMore(before, after, Answer(job, ConnectionRefused), j);
      }
      forall j ensures Active(after, j) == Active(before, j) {}
      assert !Answered(before, job);
    }
  }

  lemma {:induction false} ActivateConserves(st: State, jobs: seq<Job>, taken: set<nat>)
    requires Conserved(Rest(st, jobs))
    ensures Conserved(ActivateAll(st, jobs, taken).(waiting := []))
    decreases jobs
  {
    if jobs == [] {
      assert st.(waiting := []) == Rest(st, jobs);
    } else {
      ActivateOneConserves(st, jobs, taken);
      ActivateConserves(ActivateOne(st, jobs[0], taken), jobs[1..], taken);
    }
  }

  lemma HandleConserves(st: State, msg: Message)
    requires Conserved(st)
    ensures Conserved(Handle(st, msg))
  {
    if msg.Finished? && msg.handle in st.activated {
      var job, next := st.activated[msg.handle], Handle(st, msg);
      assert Active(st, job);
      forall j ensures Answered(next, j) <==> Answered(st, j) || j == job {
        AnsweredMore(st, next, Answer(job, Response(msg.result)), j);
      }
      forall j ensures Active(next, j) <==> Active(st, j) && j != job {}
    }
  }

  lemma ShutdownConserves(st: State, order: seq<Job>)
    requires Conserved(st) && OrderOf(st, order)
    ensures Conserved(Shutdown(st, order))
  {
    var next := Shutdown(st, order);
    forall j ensures Answered(next, j) <==> Answered(st, j) || Active(st, j) {
      if Answered(st, j) {
        var i :| 0 <= i < |st.answered| && st.answered[i].job == j;
        assert next.answered[i].job == j;
      }
      if Active(st, j) {
        var i :| 0 <= i < |order| && order[i] == j;
        assert next.answered[|st.answered| + i].job == j;
      }
      if Answered(next, j) {
        var i :| 0 <= i < |next.answered| && next.answered[i].job == j;
        if i >= |st.answered| { assert order[i - |st.answered|] == j; }
      }
    }
    forall i, k | 0 <= i < k < |next.answered| ensures next.answered[i].job != next.answered[k].job {
      if k >= |st.answered| {
        assert order[k - |st.answered|] in order;
        if i < |st.answered| { assert Answered(st, st.answered[i].job); }
      }
    }
  }

  // ---- runs ----

  /** What can happen: requests of other threads, and the parts of the loop. */
  datatype Event =
    | Sending(job: Job)
    | Activating(taken: set<nat>)
    | Receiving(msg: Message)
    | ShuttingDown(order: seq<Job>)

  ghost predicate Possible(st: State, e: Event)
  {
    match e
    case Sending(job) => Fresh(st, job)
    case ShuttingDown(order) => OrderOf(st, order)
    case _ => true
  }

  function Next(st: State, e: Event): State
  {
    match e
    case Sending(job) => Send(st, job)
    case Activating(taken) => Activate(st, taken)
    case Receiving(msg) => Handle(st, msg)
    case ShuttingDown(order) => Shutdown(st, order)
  }

  function RunOf(st: State, es: seq<Event>): State
    decreases es
  {
    if es == [] then st else RunOf(Next(st, es[0]), es[1..])
  }

  ghost predicate Runnable(st: State, es: seq<Event>)
    decreases es
  {
    es == [] || (Possible(st, es[0]) && Runnable(Next(st, es[0]), es[1..]))
  }

  lemma {:induction false} RunConserves(st: State, es: seq<Event>)
    requires Conserved(st) && Runnable(st, es)
    ensures Conserved(RunOf(st, es))
    decreases es
  {
    if es != [] {
      match es[0] {
        case Sending(job) => SendConserves(st, job);
        case Activating(taken) =>
          assert Rest(st, st.waiting) == st;
          ActivateConserves(st, st.waiting, taken);
        case Receiving(msg) => HandleConserves(st, msg);
        case ShuttingDown(order) => ShutdownConserves(st, order);
      }
      RunConserves(Next(st, es[0]), es[1..]);
    }
  }

  lemma {:induction false} RunConcat(st: State, a: seq<Event>, b: seq<Event>)
    ensures RunOf(st, a + b) == RunOf(RunOf(st, a), b)
    ensures Runnable(st, a + b) <==> Runnable(st, a) && Runnable(RunOf(st, a), b)
    decreases a
  {
    if a == [] {
      Unit(b);
    } else {
      assert (a + b)[1..] == a[1..] + b;
      RunConcat(Next(st, a[0]), a[1..], b);
    }
  }

  /** Requests are conserved: in every reachable state, each accepted request is waiting, activated or answered,
      exactly one of these, and none is answered twice. */
  lemma RequestsAreConserved(es: seq<Event>)
    requires Runnable(START, es)
    ensures var st := RunOf(START, es);
            && (forall j :: j in st.accepted <==> j in st.waiting || Active(st, j) || Answered(st, j))
            && (forall j :: !(j in st.waiting && Active(st, j)) && !(j in st.waiting && Answered(st, j))
                            && !(Active(st, j) && Answered(st, j)))
            && AnsweredOnce(st.answered) && NoDuplicates(st.waiting)
  {
    RunConserves(START, es);
  }

  // ---- which answer a request gets ----

  /** The answer that an event gives rise to: a message about its handle ends an activated request with the result,
      an activation refuses a waiting one whose handle is not taken, and a shutdown answers the activated ones. */
  ghost predicate Causes(st: State, e: Event, a: Answer)
  {
    match e
    case Sending(_) => false
    case Activating(taken) => a.job in st.waiting && a.job.handle !in taken && a.reason == ConnectionRefused
    case Receiving(msg) =>
      Active(st, a.job) && a.reason.Response? && msg == Finished(a.job.handle, a.reason.result)
    case ShuttingDown(_) => Active(st, a.job) && a.reason == ServiceShutdown
  }

  /** What is activated behind an event: a waiting request whose handle is taken, and what was activated before, unless
      the event ends it. */
  ghost predicate ActiveBehind(st: State, e: Event, j: Job)
  {
    match e
    case Sending(_) => Active(st, j)
    case Activating(taken) => Active(st, j) || (j in st.waiting && j.handle in taken)
    case Receiving(msg) => Active(st, j) && !(msg.Finished? && msg.handle == j.handle)
    case ShuttingDown(_) => false
  }

  /** What waits behind an event: a sent request, and what waited before, until an activation. */
  ghost predicate WaitsBehind(st: State, e: Event, j: Job)
  {
    !e.Activating? && (j in st.waiting || e == Sending(j))
  }

  lemma {:induction false} ActivationDecides(st: State, jobs: seq<Job>, taken: set<nat>)
    requires Conserved(Rest(st, jobs))
    ensures var next := ActivateAll(st, jobs, taken);
            && (forall a :: a in next.answered
                  <==> a in st.answered
                       || (a.job in jobs && a.job.handle !in taken && a.reason == ConnectionRefused))
            && (forall j :: Active(next, j) <==> Active(st, j) || (j in jobs && j.handle in taken))
    decreases jobs
  {
    if jobs != [] {
      var job, one := jobs[0], ActivateOne(st, jobs[0], taken);
      ActivateOneConserves(st, jobs, taken);
      ActivationDecides(one, jobs[1..], taken);
      assert forall j :: j in jobs <==> j == job || j in jobs[1..];
      assert Rest(st, jobs).waiting[0] == job;
      var refusal := Answer(job, ConnectionRefused);
      forall a ensures a in one.answered <==> a in st.answered || (job.handle !in taken && a == refusal) {}
      forall j ensures Active(one, j) <==> Active(st, j) || (j == job && job.handle in taken) {}
    }
  }

  /** Exactly these answers are given by an event, and exactly these requests are activated behind it. */
  lemma EventDecides(st: State, e: Event)
    requires Conserved(st) && Possible(st, e)
    ensures forall a :: a in Next(st, e).answered <==> a in st.answered || Causes(st, e, a)
    ensures forall j :: Active(Next(st, e), j) <==> ActiveBehind(st, e, j)
    ensures forall j :: j in Next(st, e).waiting <==> WaitsBehind(st, e, j)
    ensures forall j :: j in Next(st, e).accepted <==> j in st.accepted || e == Sending(j)
  {
    var next := Next(st, e);
    match e
    case Sending(_) =>
    case Activating(taken) =>
      assert Rest(st, st.waiting) == st;
      ActivationDecides(st, st.waiting, taken);
      AcceptedStays(st, st.waiting, taken);
    case Receiving(msg) =>
      if msg.Finished? && msg.handle in st.activated {
        var given := Answer(st.activated[msg.handle], Response(msg.result));
        forall a ensures a in next.answered <==> a in st.answered || a == given {}
      }
    case ShuttingDown(order) =>
      ShutdownDecides(st, order);
  }

  lemma ShutdownDecides(st: State, order: seq<Job>)
    requires OrderOf(st, order)
    ensures forall a :: a in Shutdown(st, order).answered
              <==> a in st.answered || (Active(st, a.job) && a.reason == ServiceShutdown)
  {
    var next := Shutdown(st, order);
    forall a ensures a in next.answered <==> a in st.answered || (Active(st, a.job) && a.reason == ServiceShutdown) {
      if Active(st, a.job) && a.reason == ServiceShutdown {
        var i :| 0 <= i < |order| && order[i] == a.job;
        assert next.answered[|st.answered| + i] == a;
      }
      if a in next.answered && a !in st.answered {
        var i :| |st.answered| <= i < |next.answered| && next.answered[i] == a;
        assert order[i - |st.answered|] in order;
      }
    }
  }

  /** The state in which the i-th event of a run happens. */
  function StateAt(st: State, es: seq<Event>, i: nat): State
    requires i <= |es|
  {
    RunOf(st, es[..i])
  }

  lemma {:induction false} AnswersFrom(st: State, es: seq<Event>, a: Answer)
    requires Conserved(st) && Runnable(st, es)
    ensures a in RunOf(st, es).answered
       <==> a in st.answered || exists i :: 0 <= i < |es| && Causes(StateAt(st, es, i), es[i], a)
    decreases es
  {
    if es != [] {
      var next := Next(st, es[0]);
      EventDecides(st, es[0]);
      assert es[..0] == [] && StateAt(st, es, 0) == st;
      RunConserves(st, [es[0]]);
      assert RunOf(st, [es[0]]) == next by { assert [es[0]][1..] == []; }
      AnswersFrom(next, es[1..], a);
      forall i | 0 <= i < |es| - 1
        ensures StateAt(next, es[1..], i) == StateAt(st, es, i + 1) && es[1..][i] == es[i + 1]
      {
        assert es[..i + 1][1..] == es[1..][..i];
      }
      if j :| 0 <= j < |es| && Causes(StateAt(st, es, j), es[j], a) {
        if j > 0 { assert Causes(StateAt(next, es[1..], j - 1), es[1..][j - 1], a); }
      }
      if k :| 0 <= k < |es| - 1 && Causes(StateAt(next, es[1..], k), es[1..][k], a) {
        assert Causes(StateAt(st, es, k + 1), es[k + 1], a);
      }
    }
  }

  /** A request is accepted in a run exactly if it is sent in it. */
  lemma {:induction false} SentIsAccepted(st: State, es: seq<Event>, j: Job)
    requires Conserved(st) && Runnable(st, es)
    ensures j in RunOf(st, es).accepted <==> j in st.accepted || Sending(j) in es
    decreases es
  {
    if es != [] {
      EventDecides(st, es[0]);
      RunConserves(st, [es[0]]);
      assert RunOf(st, [es[0]]) == Next(st, es[0]) by { assert [es[0]][1..] == []; }
      SentIsAccepted(Next(st, es[0]), es[1..], j);
      assert Sending(j) in es <==> es[0] == Sending(j) || Sending(j) in es[1..];
    }
  }

  /** Main result: over every run, the answers are exactly those that its events give rise to. A finished message about
      a handle answers the activated request of this handle with its result; there is no other way to such an answer. */
  lemma AnswersAreCaused(es: seq<Event>, a: Answer)
    requires Runnable(START, es)
    ensures a in RunOf(START, es).answered <==> exists i :: 0 <= i < |es| && Causes(StateAt(START, es, i), es[i], a)
  {
    AnswersFrom(START, es, a);
  }

  /** And it ends the request: from then on it is not activated, whatever follows. */
  lemma FinishedIsEnded(es: seq<Event>, i: nat, job: Job, result: int)
    requires Runnable(START, es) && i < |es| && es[i] == Receiving(Finished(job.handle, result))
    requires Active(StateAt(START, es, i), job)
    ensures var end := RunOf(START, es);
            && Answer(job, Response(result)) in end.answered && !Active(end, job) && job !in end.waiting
            && forall a :: a in end.answered && a.job == job ==> a.reason == Response(result)
  {
    var end, a := RunOf(START, es), Answer(job, Response(result));
    assert Causes(StateAt(START, es, i), es[i], a);
    AnswersAreCaused(es, a);
    RunConserves(START, es);
    var k :| 0 <= k < |end.answered| && end.answered[k] == a;
    assert Answered(end, job);
  }

  /** At the end of the loop nothing is activated, and exactly the requests that still wait have no answer: all
      accepted requests are answered if and only if the waiting list is empty. */
  lemma EndOfLoop(es: seq<Event>, order: seq<Job>)
    requires Runnable(START, es + [ShuttingDown(order)])
    ensures var st := RunOf(START, es + [ShuttingDown(order)]);
            && st.activated == map[]
            && (forall j :: j in st.accepted ==> (Answered(st, j) <==> j !in st.waiting))
            && ((forall j :: j in st.accepted ==> Answered(st, j)) <==> st.waiting == [])
  {
    RunConcat(START, es, [ShuttingDown(order)]);
    RunConserves(START, es + [ShuttingDown(order)]);
    var before := RunOf(START, es);
    var st := RunOf(START, es + [ShuttingDown(order)]);
    assert [ShuttingDown(order)][1..] == [];
    assert st == Shutdown(before, order);
    if st.waiting != [] {
      assert st.waiting[0] in st.waiting && st.waiting[0] in st.accepted;
    }
  }

  /** What waits when the loop ends is not lost: a loop that is started again takes it up. */
  lemma RestartTakesUp(es: seq<Event>, order: seq<Job>, taken: set<nat>)
    requires Runnable(START, es + [ShuttingDown(order)])
    ensures var st := RunOf(START, es + [ShuttingDown(order)]);
            var next := Next(st, Activating(taken));
            && next.waiting == [] && Conserved(next)
            && forall j :: j in st.accepted ==> Active(next, j) || Answered(next, j)
  {
    var st := RunOf(START, es + [ShuttingDown(order)]);
    RunConserves(START, es + [ShuttingDown(order)]);
    assert Rest(st, st.waiting) == st;
    ActivateConserves(st, st.waiting, taken);
    AcceptedStays(st, st.waiting, taken);
  }

  lemma {:induction false} AcceptedStays(st: State, jobs: seq<Job>, taken: set<nat>)
    ensures ActivateAll(st, jobs, taken).accepted == st.accepted
    decreases jobs
  {
    if jobs != [] { AcceptedStays(ActivateOne(st, jobs[0], taken), jobs[1..], taken); }
  }

  // ---- ticks ----

  /** How a wait ends: by an event, by a timeout, or by an exception when the signals are read. */
  datatype Wait = ByEvent | ByTimeout | ByException

  /** The counter after a wait, and whether the tickers were called; one that throws keeps the counter as it was. */
  function Interrupt(count: int, limit: int, wait: Wait, throws: bool): (int, bool)
  {
    match wait
    case ByEvent => if count + 1 == limit then (0, true) else (count + 1, false)
    case ByTimeout => (if throws then count else 0, true)
    case ByException => (count, false)
  }

  /** Waits, and whether a ticker throws behind them. */
  type Waits = seq<(Wait, bool)>

  function Counts(count: int, limit: int, waits: Waits): int
    decreases waits
  {
    if waits == [] then count else Counts(Interrupt(count, limit, waits[0].0, waits[0].1).0, limit, waits[1..])
  }

  function Ticks(count: int, limit: int, waits: Waits): nat
    decreases waits
  {
    if waits == [] then 0
    else
      var (next, ticked) := Interrupt(count, limit, waits[0].0, waits[0].1);
      (if ticked then 1 else 0) + Ticks(next, limit, waits[1..])
  }

  /** The waits that did not end by an exception. */
  function Ended(waits: Waits): nat
    decreases waits
  {
    if waits == [] then 0 else (if waits[0].0.ByException? then 0 else 1) + Ended(waits[1..])
  }

  lemma {:induction false} CountsBounded(count: int, limit: int, waits: Waits)
    requires 0 <= count < limit
    ensures 0 <= Counts(count, limit, waits) < limit
    ensures Ticks(count, limit, waits) == 0 ==> Counts(count, limit, waits) == count + Ended(waits)
    decreases waits
  {
    if waits != [] { CountsBounded(Interrupt(count, limit, waits[0].0, waits[0].1).0, limit, waits[1..]); }
  }

  /** However busy the loop is, the tickers are called at least once in `limit` waits that end by an event or a
      timeout. */
  lemma TickersAreCalled(count: int, limit: int, waits: Waits)
    requires 0 <= count < limit <= Ended(waits)
    ensures Ticks(count, limit, waits) >= 1
  {
    CountsBounded(count, limit, waits);
  }

  /** With a period of zero seconds the limit is zero, and events alone never call them. */
  lemma {:induction false} NoTicksWithoutPeriod(count: int, waits: Waits)
    requires count >= 0 && forall i :: 0 <= i < |waits| ==> !waits[i].0.ByTimeout?
    ensures Ticks(count, 0, waits) == 0
    decreases waits
  {
    if waits != [] { NoTicksWithoutPeriod(Interrupt(count, 0, waits[0].0, waits[0].1).0, waits[1..]); }
  }

  lemma {:induction false} WaitsConcat(count: int, limit: int, a: Waits, b: Waits)
    ensures Counts(count, limit, a + b) == Counts(Counts(count, limit, a), limit, b)
    ensures Ticks(count, limit, a + b) == Ticks(count, limit, a) + Ticks(Counts(count, limit, a), limit, b)
    decreases a
  {
    if a == [] {
      Unit(b);
    } else {
      assert (a + b)[1..] == a[1..] + b;
      WaitsConcat(Interrupt(count, limit, a[0].0, a[0].1).0, limit, a[1..], b);
    }
  }

  /** Without timeouts, every `limit`-th wait that ends by an event calls the tickers. */
  lemma {:induction false} EventsTick(count: int, limit: int, waits: Waits)
    requires 0 <= count < limit && forall i :: 0 <= i < |waits| ==> !waits[i].0.ByTimeout?
    ensures count + Ended(waits) == limit * Ticks(count, limit, waits) + Counts(count, limit, waits)
    ensures 0 <= Counts(count, limit, waits) < limit
    decreases waits
  {
    if waits != [] { EventsTick(Interrupt(count, limit, waits[0].0, waits[0].1).0, limit, waits[1..]); }
  }

  /** A timeout calls them and starts the counting again, unless one of them throws. */
  lemma TimeoutTicks(count: int, limit: int, before: Waits, throws: bool, after: Waits)
    ensures var counted := Counts(count, limit, before);
            Ticks(count, limit, before + [(ByTimeout, throws)] + after)
              == Ticks(count, limit, before) + 1 + Ticks(if throws then counted else 0, limit, after)
  {
    var timeout: Waits := [(ByTimeout, throws)];
    WaitsConcat(count, limit, before + timeout, after);
    WaitsConcat(count, limit, before, timeout);
    assert timeout[1..] == [];
  }

  // ---- the loop as it runs ----

  /** What the connection library and the other threads do during one round: the handles taken, the messages that
      two calls bring, the requests sent, how the wait ends, and whether a ticker throws. Exceptions end the round and
      are logged. */
  datatype Round =
    Round(taken: set<nat>, first: seq<Message>, second: seq<Message>, sent: seq<Job>, wait: Wait, throws: bool)

  function SendAll(st: State, jobs: seq<Job>): State
    decreases jobs
  {
    if jobs == [] then st else SendAll(Send(st, jobs[0]), jobs[1..])
  }

  /** One round: messages that arrive while others are handled stay in the queue for the next round. */
  function AfterRound(st: State, queue: seq<Message>, r: Round): (State, seq<Message>)
  {
    var msgs := queue + r.first;
    (SendAll(HandleAll(Activate(st, r.taken), msgs), r.sent), if msgs == [] then [] else r.second)
  }

  function AfterRounds(st: State, queue: seq<Message>, rs: seq<Round>): (State, seq<Message>)
    decreases rs
  {
    if rs == [] then (st, queue)
    else var (next, left) := AfterRound(st, queue, rs[0]); AfterRounds(next, left, rs[1..])
  }

  function WaitsOf(rs: seq<Round>): (w: Waits)
    ensures |w| == |rs|
  {
    seq(|rs|, i requires 0 <= i < |rs| => (rs[i].wait, rs[i].throws))
  }

  function EventsOf(msgs: seq<Message>): seq<Event> {
    seq(|msgs|, i requires 0 <= i < |msgs| => Receiving(msgs[i]))
  }

  function SendingsOf(jobs: seq<Job>): seq<Event> {
    seq(|jobs|, i requires 0 <= i < |jobs| => Sending(jobs[i]))
  }

  function RoundEvents(queue: seq<Message>, r: Round): seq<Event>
  {
    [Activating(r.taken)] + (EventsOf(queue + r.first) + SendingsOf(r.sent))
  }

  lemma {:induction false} HandleAllRuns(st: State, msgs: seq<Message>)
    ensures RunOf(st, EventsOf(msgs)) == HandleAll(st, msgs)
    decreases msgs
  {
    if msgs != [] {
      assert EventsOf(msgs)[1..] == EventsOf(msgs[1..]);
      HandleAllRuns(Handle(st, msgs[0]), msgs[1..]);
    }
  }

  lemma {:induction false} SendAllRuns(st: State, jobs: seq<Job>)
    ensures RunOf(st, SendingsOf(jobs)) == SendAll(st, jobs)
    decreases jobs
  {
    if jobs != [] {
      assert SendingsOf(jobs)[1..] == SendingsOf(jobs[1..]);
      SendAllRuns(Send(st, jobs[0]), jobs[1..]);
    }
  }

  /** A round of the loop is a run of the events in it, so that what holds of all runs holds of the loop. */
  lemma RoundIsRun(st: State, queue: seq<Message>, r: Round)
    ensures RunOf(st, RoundEvents(queue, r)) == AfterRound(st, queue, r).0
  {
    var msgs := queue + r.first;
    RunConcat(st, [Activating(r.taken)], EventsOf(msgs) + SendingsOf(r.sent));
    assert [Activating(r.taken)][1..] == [];
    assert RunOf(st, [Activating(r.taken)]) == Activate(st, r.taken);
    RunConcat(Activate(st, r.taken), EventsOf(msgs), SendingsOf(r.sent));
    HandleAllRuns(Activate(st, r.taken), msgs);
    SendAllRuns(HandleAll(Activate(st, r.taken), msgs), r.sent);
  }

  function RoundsEvents(queue: seq<Message>, rs: seq<Round>): seq<Event>
    decreases rs
  {
    if rs == [] then []
    else
      var next := if queue + rs[0].first == [] then [] else rs[0].second;
      RoundEvents(queue, rs[0]) + RoundsEvents(next, rs[1..])
  }

  /** All rounds of the loop are one run. */
  lemma {:induction false} RoundsAreRun(st: State, queue: seq<Message>, rs: seq<Round>)
    ensures RunOf(st, RoundsEvents(queue, rs)) == AfterRounds(st, queue, rs).0
    decreases rs
  {
    if rs != [] {
      var (next, left) := AfterRound(st, queue, rs[0]);
      RoundIsRun(st, queue, rs[0]);
      RoundsAreRun(next, left, rs[1..]);
      RunConcat(st, RoundEvents(queue, rs[0]), RoundsEvents(left, rs[1..]));
    }
  }

  function MessagesOf(es: seq<Event>): seq<Message>
  {
    if es == [] then [] else (if es[0].Receiving? then [es[0].msg] else []) + MessagesOf(es[1..])
  }

  function JobsSent(es: seq<Event>): seq<Job>
  {
    if es == [] then [] else (if es[0].Sending? then [es[0].job] else []) + JobsSent(es[1..])
  }

  lemma {:induction false} EventsConcat(a: seq<Event>, b: seq<Event>)
    ensures MessagesOf(a + b) == MessagesOf(a) + MessagesOf(b) && JobsSent(a + b) == JobsSent(a) + JobsSent(b)
  {
    if a == [] {
      Unit(b);
    } else {
      assert (a + b)[1..] == a[1..] + b && (a + b)[0] == a[0];
      EventsConcat(a[1..], b);
      if a[0].Receiving? { Assoc([a[0].msg], MessagesOf(a[1..]), MessagesOf(b)); }
      if a[0].Sending? { Assoc([a[0].job], JobsSent(a[1..]), JobsSent(b)); }
    }
  }

  lemma {:induction false} MessageEvents(msgs: seq<Message>)
    ensures MessagesOf(EventsOf(msgs)) == msgs && JobsSent(EventsOf(msgs)) == []
  {
    if msgs != [] {
      assert EventsOf(msgs)[1..] == EventsOf(msgs[1..]);
      MessageEvents(msgs[1..]);
    }
  }

  lemma {:induction false} SendingEvents(jobs: seq<Job>)
    ensures MessagesOf(SendingsOf(jobs)) == [] && JobsSent(SendingsOf(jobs)) == jobs
  {
    if jobs != [] {
      assert SendingsOf(jobs)[1..] == SendingsOf(jobs[1..]);
      SendingEvents(jobs[1..]);
    }
  }

  lemma RoundParts(queue: seq<Message>, r: Round)
    ensures MessagesOf(RoundEvents(queue, r)) == queue + r.first && JobsSent(RoundEvents(queue, r)) == r.sent
    ensures RoundEvents(queue, r)[0] == Activating(r.taken)
  {
    var msgs := queue + r.first;
    EventsConcat([Activating(r.taken)], EventsOf(msgs) + SendingsOf(r.sent));
    EventsConcat(EventsOf(msgs), SendingsOf(r.sent));
    MessageEvents(msgs);
    SendingEvents(r.sent);
    assert [Activating(r.taken)][1..] == [];
  }

  /** What the connection library brings in these rounds: it is asked a second time if there has been a message. */
  function Brought(queue: seq<Message>, rs: seq<Round>): seq<Message>
    decreases rs
  {
    if rs == [] then []
    else
      var next := if queue + rs[0].first == [] then [] else rs[0].second;
      rs[0].first + next + Brought(next, rs[1..])
  }

  function AllSent(rs: seq<Round>): seq<Job>
  {
    if rs == [] then [] else rs[0].sent + AllSent(rs[1..])
  }

  /** No message is lost: all that are brought are handled, each once and in order, except those that are left in the
      queue at the end. Neither is any request that is sent. */
  lemma {:induction false} MessagesAreHandled(st: State, queue: seq<Message>, rs: seq<Round>)
    ensures MessagesOf(RoundsEvents(queue, rs)) + AfterRounds(st, queue, rs).1 == queue + Brought(queue, rs)
    ensures JobsSent(RoundsEvents(queue, rs)) == AllSent(rs)
    decreases rs
  {
    if rs != [] {
      var (next, left) := AfterRound(st, queue, rs[0]);
      MessagesAreHandled(next, left, rs[1..]);
      RoundParts(queue, rs[0]);
      EventsConcat(RoundEvents(queue, rs[0]), RoundsEvents(left, rs[1..]));
      hide MessagesOf, JobsSent, RoundEvents, AfterRound;
      Regroup(queue, rs[0].first, left, Brought(left, rs[1..]), MessagesOf(RoundsEvents(left, rs[1..])),
              AfterRounds(next, left, rs[1..]).1);
    }
  }

  lemma Regroup(queue: seq<Message>, first: seq<Message>, left: seq<Message>, brought: seq<Message>,
                more: seq<Message>, end: seq<Message>)
    requires more + end == left + brought
    ensures queue + first + more + end == queue + (first + left + brought)
  {
    Assoc(queue + first, more, end);
    Assoc(queue + first, left, brought);
    Assoc(queue, first, left);
    Assoc(queue, first + left, brought);
  }

  class CurlEventLoop {
    var started: bool
    var waitingList: seq<Job>
    var activatedMap: map<nat, Job>
    var queue: seq<Message>
    var requestCount: int
    const requestsBeforeTick: int
    ghost var accepted: set<Job>
    var answered: seq<Answer>

    ghost function Model(): State
      reads this
    {
      State(accepted, waitingList, activatedMap, answered)
    }

    constructor (requestsBeforeTick: int)
      ensures Model() == START && queue == [] && requestCount == 0 && !started
      ensures this.requestsBeforeTick == requestsBeforeTick
    {
      started, waitingList, activatedMap, queue, requestCount := false, [], map[], [], 0;
      accepted, answered := {}, [];
      this.requestsBeforeTick := requestsBeforeTick;
    }

    /** Accepts a request; before the loop is started it is refused with an answer at once. */
    method SendRequest(job: Job) returns (ok: bool, refusal: Option<Answer>)
      modifies `waitingList, `accepted
      ensures ok == started && Model() == if ok then Send(old(Model()), job) else old(Model())
      ensures refusal == if ok then None else Some(Answer(job, NotStarted))
    {
      if !started { return false, Some(Answer(job, NotStarted)); }
      waitingList := waitingList + [job];
      accepted := accepted + {job};
      return true, None;
    }

    method ActivateIdleJobs(taken: set<nat>)
      modifies `waitingList, `activatedMap, `answered
      ensures Model() == Activate(old(Model()), taken)
    {
      ghost var was := Model();
      var wi := 0;
      assert waitingList[0..] == waitingList;
      while wi < |waitingList|
        invariant 0 <= wi <= |waitingList| && waitingList == was.waiting && accepted == was.accepted
        invariant ActivateAll(was, was.waiting, taken) == ActivateAll(Model(), was.waiting[wi..], taken)
      {
        var job := waitingList[wi];
        assert was.waiting[wi..][1..] == was.waiting[wi + 1..];
        if job.handle !in taken {
          answered := answered + [Answer(job, ConnectionRefused)];
        } else {
          activatedMap := activatedMap[job.handle := job];
        }
        wi := wi + 1;
      }
      waitingList := [];
    }

    method FetchJob(handle: nat) returns (job: Option<Job>)
      modifies `activatedMap
      ensures job == if handle in old(activatedMap) then Some(old(activatedMap)[handle]) else None
      ensures activatedMap == old(activatedMap) - {handle}
    {
      if handle !in activatedMap { return None; }
      job := Some(activatedMap[handle]);
      activatedMap := activatedMap - {handle};
    }

    method HandleMessage(msg: Message)
      modifies `activatedMap, `answered
      ensures Model() == Handle(old(Model()), msg)
    {
      if msg.Finished? {
        var job := FetchJob(msg.handle);
        if job.Some? { answered := answered + [Answer(job.value, Response(msg.result))]; }
      }
    }

    /** Handles the messages of the connection library. The count of messages left is not renewed in the second
        pass, so that this ends after two passes at most, and what the second one brings stays in the queue. */
    method ProcessEvents(first: seq<Message>, second: seq<Message>)
      modifies `activatedMap, `answered, `queue
      ensures Model() == HandleAll(old(Model()), old(queue) + first)
      ensures queue == if old(queue) + first == [] then [] else second
    {
      ghost var msgs := queue + first;
      var msgLeft := 1;
      var msgCount := 0;
      queue := queue + first;
      msgLeft, msgCount := ReadMessages(msgLeft);
      if msgCount > 0 {
        queue := queue + second;
        msgLeft, msgCount := ReadMessages(msgLeft);
        assert msgCount == 0;
      }
    }

    /** Reads messages as long as some are known to be left. */
    method ReadMessages(msgLeft: int) returns (left: int, count: nat)
      modifies `activatedMap, `answered, `queue
      ensures left == 0
      ensures msgLeft == 0 ==> count == 0 && queue == old(queue) && Model() == old(Model())
      ensures msgLeft != 0 ==> count == |old(queue)| && queue == [] && Model() == HandleAll(old(Model()), old(queue))
    {
      left, count := msgLeft, 0;
      ghost var start := Model();
      while left != 0
        invariant accepted == old(accepted) && waitingList == old(waitingList)
        invariant msgLeft == 0 ==> left == 0 && count == 0 && queue == old(queue) && Model() == start
        invariant msgLeft != 0 ==>
          && count + |queue| == |old(queue)| && (left == 0 ==> queue == [])
          && HandleAll(start, old(queue)) == HandleAll(Model(), queue)
        decreases |queue|, if left == 0 then 0 else 1
      {
        if queue == [] {
          left := 0;
        } else {
          var msg := queue[0];
          queue := queue[1..];
          left := |queue|;
          count := count + 1;
          HandleMessage(msg);
        }
      }
    }

    /** Counts the waits that events end, and calls the tickers when there have been enough of them. */
    method CheckTick(throws: bool) returns (ticked: bool)
      modifies `requestCount
      ensures (requestCount, ticked) == Interrupt(old(requestCount), requestsBeforeTick, ByEvent, throws)
    {
      requestCount := requestCount + 1;
      ticked := requestCount == requestsBeforeTick;
      if ticked { requestCount := 0; }
    }

    /** The end of a round: an event is counted, a timeout calls the tickers, an exception leaves the round. */
    method Listen(wait: Wait, throws: bool) returns (ticked: bool)
      modifies `requestCount
      ensures (requestCount, ticked) == Interrupt(old(requestCount), requestsBeforeTick, wait, throws)
    {
      match wait {
        case ByException => return false;
        case ByEvent => ticked := CheckTick(throws);
        case ByTimeout =>
          if !throws { requestCount := 0; }
          return true;
      }
    }

    method TerminatePendingRequests() returns (ghost order: seq<Job>)
      requires OwnHandles(activatedMap)
      modifies `activatedMap, `answered
      ensures OrderOf(old(Model()), order) && Model() == Shutdown(old(Model()), order)
    {
      ghost var was := Model();
      order := [];
      var left := activatedMap.Keys;
      while left != {}
        modifies `answered
        invariant left <= activatedMap.Keys && NoDuplicates(order)
        invariant forall j :: j in order <==> Active(was, j) && j.handle !in left
        invariant answered == Shutdown(was, order).answered
        decreases |left|
      {
        var h :| h in left;
        ghost var more := order + [activatedMap[h]];
        assert Shutdown(was, more).answered
            == Shutdown(was, order).answered + [Answer(activatedMap[h], ServiceShutdown)];
        answered := answered + [Answer(activatedMap[h], ServiceShutdown)];
        left := left - {h};
        order := more;
      }
      activatedMap := map[];
    }

    /** The rounds of the loop until it is told to terminate, and the answers to what is left then. */
    method Run(rounds: seq<Round>) returns (ticks: nat, ghost order: seq<Job>)
      requires started
      requires OwnHandles(activatedMap)
      modifies this
      ensures started == old(started)
      ensures var st := AfterRounds(old(Model()), old(queue), rounds).0;
              OrderOf(st, order) && Model() == Shutdown(st, order)
      ensures requestCount == Counts(old(requestCount), requestsBeforeTick, WaitsOf(rounds))
      ensures ticks == Ticks(old(requestCount), requestsBeforeTick, WaitsOf(rounds))
    {
      var k := 0;
      ghost var all := AfterRounds(Model(), queue, rounds);
      ghost var limit, waits := requestsBeforeTick, WaitsOf(rounds);
      ghost var count, total := Counts(requestCount, limit, waits), Ticks(requestCount, limit, waits);
      assert rounds[0..] == rounds;
      ticks := 0;
      while k < |rounds|
        invariant 0 <= k <= |rounds| && started
        invariant OwnHandles(activatedMap)
        invariant AfterRounds(Model(), queue, rounds[k..]) == all
        invariant Counts(requestCount, limit, WaitsOf(rounds[k..])) == count
        invariant ticks + Ticks(requestCount, limit, WaitsOf(rounds[k..])) == total
      {
        assert rounds[k..][1..] == rounds[k + 1..];
        assert WaitsOf(rounds[k..])[1..] == WaitsOf(rounds[k + 1..]);
        var ticked := RunRound(rounds[k]);
        if ticked { ticks := ticks + 1; }
        k := k + 1;
      }
      order := TerminatePendingRequests();
    }

    method RunRound(r: Round) returns (ticked: bool)
      requires started && OwnHandles(activatedMap)
      modifies this
      ensures started && OwnHandles(activatedMap)
      ensures (Model(), queue) == AfterRound(old(Model()), old(queue), r)
      ensures (requestCount, ticked) == Interrupt(old(requestCount), requestsBeforeTick, r.wait, r.throws)
    {
      ghost var was := Model();
      ActivateIdleJobs(r.taken);
      ActivateKeepsHandles(was, was.waiting, r.taken);
      ghost var active := Model();
      ProcessEvents(r.first, r.second);
      HandleKeepsHandles(active, old(queue) + r.first);
      var si := 0;
      ghost var handled := Model();
      assert r.sent[0..] == r.sent;
      while si < |r.sent|
        modifies `waitingList, `accepted
        invariant 0 <= si <= |r.sent| && SendAll(handled, r.sent) == SendAll(Model(), r.sent[si..])
      {
        assert r.sent[si..][1..] == r.sent[si + 1..];
        var ok, refusal := SendRequest(r.sent[si]);
        si := si + 1;
      }
      ticked := Listen(r.wait, r.throws);
    }
  }

  ghost predicate OwnHandles(activated: map<nat, Job>)
  {
    forall h :: h in activated ==> activated[h].handle == h
  }

  lemma {:induction false} ActivateKeepsHandles(st: State, jobs: seq<Job>, taken: set<nat>)
    requires OwnHandles(st.activated)
    ensures OwnHandles(ActivateAll(st, jobs, taken).activated)
    decreases jobs
  {
    if jobs != [] { ActivateKeepsHandles(ActivateOne(st, jobs[0], taken), jobs[1..], taken); }
  }

  lemma {:induction false} HandleKeepsHandles(st: State, msgs: seq<Message>)
    requires OwnHandles(st.activated)
    ensures OwnHandles(HandleAll(st, msgs).activated)
    decreases msgs
  {
    if msgs != [] { HandleKeepsHandles(Handle(st, msgs[0]), msgs[1..]); }
  }
}
