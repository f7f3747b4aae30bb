/**
 The bounded-concurrency replay of historical transactions: one task per transaction, a shared
 semaphore, a cancellation flag that may be set at any moment, and a gather that returns all
 results in input order or raises. Any schedule of task steps is a history of events.
 */
module Replay {
  import opened Prelude

  /** Where a task stands. `Acquired` and `Evaluating` hold a permit. */
  datatype Task<R> = Ready | Waiting | Acquired | Evaluating | Done(result: R) | Failed

  datatype Gather<R> = Pending | Returned(results: seq<R>) | Raised

  datatype State<R> = State(tasks: seq<Task<R>>, permits: int, cancelled: bool, outcome: Gather<R>)

  /** The steps of a task, of the gather, and of the surroundings (`Cancel`, `Interrupt`). */
  datatype Event =
    | Start(i: nat)
    | Acquire(i: nat)
    | Check(i: nat)
    | Finish(i: nat)
    | Collect
    | Propagate
    | Cancel
    | Interrupt(i: nat)

  function Initial<R>(n: nat, concurrency: nat): State<R> {
    State(seq(n, _ => Ready), concurrency, false, Pending)
  }

  predicate Holds<R>(t: Task<R>) {
    t.Acquired? || t.Evaluating?
  }

  predicate Over<R>(t: Task<R>) {
    t.Done? || t.Failed?
  }

  predicate AllDone<R>(tasks: seq<Task<R>>) {
    forall i :: 0 <= i < |tasks| ==> tasks[i].Done?
  }

  predicate SomeFailed<R>(tasks: seq<Task<R>>) {
    exists i :: 0 <= i < |tasks| && tasks[i].Failed?
  }

  function Results<R>(tasks: seq<Task<R>>): (r: seq<R>)
    requires AllDone(tasks)
  {
    seq(|tasks|, i requires 0 <= i < |tasks| => tasks[i].result)
  }

  /** Which events can happen. A task that has failed or finished takes no further step. */
  predicate Enabled<T, R>(s: State<R>, e: Event, txns: seq<T>) {
    match e
    case Start(i) => i < |s.tasks| && s.tasks[i].Ready?
    case Acquire(i) => i < |s.tasks| && s.tasks[i].Waiting? && s.permits > 0
    case Check(i) => i < |s.tasks| && s.tasks[i].Acquired?
    case Finish(i) => i < |s.tasks| && i < |txns| && s.tasks[i].Evaluating?
    case Collect => s.outcome.Pending? && AllDone(s.tasks)
    case Propagate => s.outcome.Pending? && SomeFailed(s.tasks)
    case Cancel => !s.cancelled
    case Interrupt(i) => i < |s.tasks| && (s.tasks[i].Ready? || s.tasks[i].Waiting? || s.tasks[i].Evaluating?)
  }

  function SetTask<R>(s: State<R>, i: nat, t: Task<R>, permits: int): State<R>
    requires i < |s.tasks|
  {
    s.(tasks := s.tasks[i := t], permits := permits)
  }

  /** One event; `evaluate` gives `None` where the evaluator raises. Events that are not enabled do nothing. */
  function Step<T, R>(s: State<R>, e: Event, txns: seq<T>, evaluate: T -> Option<R>): State<R> {
    if !Enabled(s, e, txns) then s
    else
      match e
      case Start(i) => SetTask(s, i, if s.cancelled then Failed else Waiting, s.permits)
      case Acquire(i) => SetTask(s, i, Acquired, s.permits - 1)
      case Check(i) =>
        if s.cancelled then SetTask(s, i, Failed, s.permits + 1) else SetTask(s, i, Evaluating, s.permits)
      case Finish(i) =>
        (match evaluate(txns[i])
         case Some(r) => SetTask(s, i, Done(r), s.permits + 1)
         case None => SetTask(s, i, Failed, s.permits + 1))
      case Collect => s.(outcome := Returned(Results(s.tasks)))
      case Propagate => s.(outcome := Raised)
      case Cancel => s.(cancelled := true)
      case Interrupt(i) =>
        SetTask(s, i, Failed, if s.tasks[i].Evaluating? then s.permits + 1 else s.permits)
  }

  function Run<T, R>(concurrency: nat, txns: seq<T>, evaluate: T -> Option<R>, events: seq<Event>): State<R> {
    if events == [] then Initial(|txns|, concurrency)
    else
      Step(Run(concurrency, txns, evaluate, events[..|events| - 1]), events[|events| - 1], txns, evaluate)
  }

  // ----- Safety -----

  function Holders<R>(tasks: seq<Task<R>>): nat {
    if tasks == [] then 0
    else Holders(tasks[..|tasks| - 1]) + (if Holds(tasks[|tasks| - 1]) then 1 else 0)
  }

  function InFlight<R>(tasks: seq<Task<R>>): nat {
    if tasks == [] then 0
    else InFlight(tasks[..|tasks| - 1]) + (if tasks[|tasks| - 1].Evaluating? then 1 else 0)
  }

  lemma {:induction false} InFlightHolds<R>(tasks: seq<Task<R>>)
    ensures InFlight(tasks) <= Holders(tasks)
  {
    if tasks != [] {
      InFlightHolds(tasks[..|tasks| - 1]);
    }
  }

  /** Changing one task changes the number of permit holders by its own share. */
  lemma {:induction false} HoldersUpdate<R>(tasks: seq<Task<R>>, i: nat, t: Task<R>)
    requires i < |tasks|
    ensures Holders(tasks[i := t]) + (if Holds(tasks[i]) then 1 else 0)
         == Holders(tasks) + (if Holds(t) then 1 else 0)
  {
    var n := |tasks| - 1;
    if i == n {
      assert tasks[i := t][..n] == tasks[..n];
    } else {
      assert tasks[i := t][..n] == tasks[..n][i := t];
      HoldersUpdate(tasks[..n], i, t);
    }
  }

  lemma {:induction false} NoHolders<R>(tasks: seq<Task<R>>)
    requires forall i :: 0 <= i < |tasks| ==> tasks[i].Ready?
    ensures Holders(tasks) == 0
  {
    if tasks != [] {
      NoHolders(tasks[..|tasks| - 1]);
    }
  }

  ghost predicate Sound<T, R>(s: State<R>, concurrency: nat, txns: seq<T>, evaluate: T -> Option<R>) {
    && |s.tasks| == |txns|
    && s.permits >= 0
    && s.permits + Holders(s.tasks) == concurrency
    && (forall i :: 0 <= i < |txns| && s.tasks[i].Done? ==> evaluate(txns[i]) == Some(s.tasks[i].result))
    && (s.outcome.Returned? ==>
          |s.outcome.results| == |txns|
          && AllDone(s.tasks)
          && forall i :: 0 <= i < |txns| ==> evaluate(txns[i]) == Some(s.outcome.results[i]))
    && (s.outcome.Raised? ==> SomeFailed(s.tasks))
  }

  lemma StepKeepsSound<T, R>(s: State<R>, e: Event, concurrency: nat, txns: seq<T>, evaluate: T -> Option<R>)
    requires Sound(s, concurrency, txns, evaluate)
    ensures Sound(Step(s, e, txns, evaluate), concurrency, txns, evaluate)
  {
    if Enabled(s, e, txns) && (e.Start? || e.Acquire? || e.Check? || e.Finish? || e.Interrupt?) {
      HoldersUpdate(s.tasks, e.i, Step(s, e, txns, evaluate).tasks[e.i]);
    }
    FailedStays(s, e, txns, evaluate);
  }

  lemma FailedStays<T, R>(s: State<R>, e: Event, txns: seq<T>, evaluate: T -> Option<R>)
    ensures SomeFailed(s.tasks) ==> SomeFailed(Step(s, e, txns, evaluate).tasks)
  {
    if SomeFailed(s.tasks) {
      var k :| 0 <= k < |s.tasks| && s.tasks[k].Failed?;
      assert Step(s, e, txns, evaluate).tasks[k].Failed?;
    }
  }

  /**
   For every schedule: permits are conserved, at most `concurrency` evaluations are in flight,
   and a returned list is the evaluation of every transaction, in input order.
   */
  lemma {:induction false} EveryScheduleSound<T, R>(concurrency: nat, txns: seq<T>, evaluate: T -> Option<R>, events: seq<Event>)
    ensures var s := Run(concurrency, txns, evaluate, events);
            && Sound(s, concurrency, txns, evaluate)
            && InFlight(s.tasks) <= concurrency
  {
    if events == [] {
      NoHolders(Initial<R>(|txns|, concurrency).tasks);
    } else {
      EveryScheduleSound(concurrency, txns, evaluate, events[..|events| - 1]);
      StepKeepsSound(Run(concurrency, txns, evaluate, events[..|events| - 1]), events[|events| - 1], concurrency, txns, evaluate);
    }
    InFlightHolds(Run(concurrency, txns, evaluate, events).tasks);
  }

  /** Nothing goes wrong by itself: without cancellation and with an evaluator that never raises, no task fails. */
  ghost predicate Quiet(events: seq<Event>) {
    forall k :: 0 <= k < |events| ==> !events[k].Cancel? && !events[k].Interrupt?
  }

  lemma {:induction false} QuietRunsNeverRaise<T(!new), R>(concurrency: nat, txns: seq<T>, evaluate: T -> Option<R>, events: seq<Event>)
    requires Quiet(events) && forall t :: t in txns ==> evaluate(t).Some?
    ensures var s := Run(concurrency, txns, evaluate, events);
            !s.cancelled && !s.outcome.Raised? && forall i :: 0 <= i < |s.tasks| ==> !s.tasks[i].Failed?
  {
    if events != [] {
      var before := events[..|events| - 1];
      QuietRunsNeverRaise(concurrency, txns, evaluate, before);
      EveryScheduleSound(concurrency, txns, evaluate, before);
      assert !events[|events| - 1].Cancel? && !events[|events| - 1].Interrupt?;
    }
  }

  lemma OutcomeIsFinal<T, R>(s: State<R>, e: Event, txns: seq<T>, evaluate: T -> Option<R>)
    requires !s.outcome.Pending?
    ensures Step(s, e, txns, evaluate).outcome == s.outcome
  {
  }

  /** However the schedule goes on, a list that was returned is never taken back, and an exception never followed by a list. */
  lemma {:induction false} OutcomeStays<T, R>(concurrency: nat, txns: seq<T>, evaluate: T -> Option<R>, events: seq<Event>, n: nat)
    requires n <= |events| && !Run(concurrency, txns, evaluate, events[..n]).outcome.Pending?
    ensures Run(concurrency, txns, evaluate, events).outcome == Run(concurrency, txns, evaluate, events[..n]).outcome
  {
    if n == |events| {
      assert events[..n] == events;
    } else {
      var before := events[..|events| - 1];
      assert before[..n] == events[..n];
      OutcomeStays(concurrency, txns, evaluate, before, n);
      OutcomeIsFinal(Run(concurrency, txns, evaluate, before), events[|events| - 1], txns, evaluate);
    }
  }

  // ----- Cancellation -----

  /** The task has passed its last look at the flag. */
  predicate PastChecks<R>(t: Task<R>) {
    t.Evaluating? || t.Done?
  }

  /** Once the flag is set it stays set, and no task gets past its checks that was not past them already. */
  lemma CancelledStep<T, R>(s: State<R>, e: Event, txns: seq<T>, evaluate: T -> Option<R>, i: nat)
    requires s.cancelled && i < |s.tasks| && !PastChecks(s.tasks[i])
    ensures var t := Step(s, e, txns, evaluate);
            && t.cancelled && |t.tasks| == |s.tasks| && !PastChecks(t.tasks[i])
            && (s.tasks[i].Ready? || s.tasks[i].Failed? ==> t.tasks[i].Ready? || t.tasks[i].Failed?)
  {
  }

  /** Over whole schedules: no task evaluates that was not evaluating by then, and one that had not started never queues for a permit. */
  lemma CancelledNeverEvaluates<T, R>(concurrency: nat, txns: seq<T>, evaluate: T -> Option<R>,
                                      events: seq<Event>, n: nat, i: nat)
    requires n <= |events| && i < |txns|
    requires var s := Run(concurrency, txns, evaluate, events[..n]);
             s.cancelled && |s.tasks| == |txns| && !PastChecks(s.tasks[i])
    ensures var s, t := Run(concurrency, txns, evaluate, events[..n]), Run(concurrency, txns, evaluate, events);
            && t.cancelled && |t.tasks| == |txns| && !PastChecks(t.tasks[i])
            && (s.tasks[i].Ready? ==> t.tasks[i].Ready? || t.tasks[i].Failed?)
  {
    CancelledFate(concurrency, txns, evaluate, events, n, i);
  }

  lemma {:induction false} CancelledFate<T, R>(concurrency: nat, txns: seq<T>, evaluate: T -> Option<R>,
                                               events: seq<Event>, n: nat, i: nat)
    requires n <= |events| && i < |txns|
    requires var s := Run(concurrency, txns, evaluate, events[..n]);
             s.cancelled && |s.tasks| == |txns| && !PastChecks(s.tasks[i])
    ensures var s, t := Run(concurrency, txns, evaluate, events[..n]), Run(concurrency, txns, evaluate, events);
            && t.cancelled && |t.tasks| == |txns| && !PastChecks(t.tasks[i])
            && (s.tasks[i].Ready? || s.tasks[i].Failed? ==> t.tasks[i].Ready? || t.tasks[i].Failed?)
  {
    if n == |events| {
      assert events[..n] == events;
    } else {
      var before := events[..|events| - 1];
      assert before[..n] == events[..n];
      CancelledFate(concurrency, txns, evaluate, before, n, i);
      CancelledStep(Run(concurrency, txns, evaluate, before), events[|events| - 1], txns, evaluate, i);
    }
  }

  /** If the flag is set while some task has yet to look at it, the call never returns a list, however the schedule goes on. */
  lemma CancelledNeverReturns<T, R>(concurrency: nat, txns: seq<T>, evaluate: T -> Option<R>,
                                    events: seq<Event>, n: nat, i: nat)
    requires n <= |events| && i < |txns|
    requires var s := Run(concurrency, txns, evaluate, events[..n]);
             s.cancelled && |s.tasks| == |txns| && !PastChecks(s.tasks[i])
    ensures !Run(concurrency, txns, evaluate, events).outcome.Returned?
  {
    CancelledNeverEvaluates(concurrency, txns, evaluate, events, n, i);
    EveryScheduleSound(concurrency, txns, evaluate, events);
    hide Run;
    assert !Run(concurrency, txns, evaluate, events).tasks[i].Done?;
  }

  /** Every task is past its checks and its evaluation does not raise. */
  ghost predicate Unstoppable<T, R>(s: State<R>, txns: seq<T>, evaluate: T -> Option<R>) {
    && |s.tasks| == |txns| && !s.outcome.Raised?
    && forall i :: 0 <= i < |txns| ==> PastChecks(s.tasks[i]) && evaluate(txns[i]).Some?
  }

  lemma UnstoppableStep<T, R>(s: State<R>, e: Event, txns: seq<T>, evaluate: T -> Option<R>)
    requires Unstoppable(s, txns, evaluate) && Internal(e)
    ensures Unstoppable(Step(s, e, txns, evaluate), txns, evaluate)
  {
  }

  lemma {:induction false} UnstoppableRun<T, R>(concurrency: nat, txns: seq<T>, evaluate: T -> Option<R>,
                                               events: seq<Event>, rest: seq<Event>)
    requires Unstoppable(Run(concurrency, txns, evaluate, events), txns, evaluate)
    requires forall k :: 0 <= k < |rest| ==> Internal(rest[k])
    ensures Unstoppable(Run(concurrency, txns, evaluate, events + rest), txns, evaluate)
  {
    hide Unstoppable;
    if rest == [] {
      assert events + rest == events;
    } else {
      var n := |rest| - 1;
      UnstoppableRun(concurrency, txns, evaluate, events, rest[..n]);
      assert (events + rest)[..|events + rest| - 1] == events + rest[..n];
      UnstoppableStep(Run(concurrency, txns, evaluate, events + rest[..n]), rest[n], txns, evaluate);
    }
  }

  /** From such a state the call can be brought to return its list. */
  lemma UnstoppableReturns<T, R>(concurrency: nat, txns: seq<T>, evaluate: T -> Option<R>, events: seq<Event>)
    returns (rest: seq<Event>)
    requires Unstoppable(Run(concurrency, txns, evaluate, events), txns, evaluate)
    ensures Run(concurrency, txns, evaluate, events + rest).outcome.Returned?
  {
    if concurrency == 0 && txns != [] {
      assert PastChecks(Run(concurrency, txns, evaluate, events).tasks[0]);
      NoPermitNoResult(txns, evaluate, events);
      assert false;
    } else {
      rest := WayToEnd(concurrency, txns, evaluate, events);
      UnstoppableRun(concurrency, txns, evaluate, events, rest);
    }
  }

  lemma WayToEnd<T, R>(concurrency: nat, txns: seq<T>, evaluate: T -> Option<R>, events: seq<Event>)
    returns (rest: seq<Event>)
    requires concurrency >= 1 || txns == []
    ensures forall k :: 0 <= k < |rest| ==> Internal(rest[k])
    ensures !Run(concurrency, txns, evaluate, events + rest).outcome.Pending?
  {
    if concurrency >= 1 {
      rest := CanAlwaysEnd(concurrency, txns, evaluate, events);
    } else {
      EveryScheduleSound(concurrency, txns, evaluate, events);
      rest := [Collect];
      var all := events + rest;
      assert all[..|all| - 1] == events;
    }
  }

  /**
   After a cancellation, exactly when a list can still be returned: every task was past its last
   look at the flag by then, and no evaluation raises.
   */
  lemma ReturnsAfterCancelExactly<T(!new), R(!new)>(concurrency: nat, txns: seq<T>, evaluate: T -> Option<R>, events: seq<Event>)
    requires Run(concurrency, txns, evaluate, events).cancelled
    ensures var s := Run(concurrency, txns, evaluate, events);
            (exists rest :: Run(concurrency, txns, evaluate, events + rest).outcome.Returned?)
            <==> |s.tasks| == |txns| && forall i :: 0 <= i < |txns| ==> PastChecks(s.tasks[i]) && evaluate(txns[i]).Some?
  {
    var s := Run(concurrency, txns, evaluate, events);
    EveryScheduleSound(concurrency, txns, evaluate, events);
    hide Run;
    if rest :| Run(concurrency, txns, evaluate, events + rest).outcome.Returned? {
      forall i | 0 <= i < |txns|
        ensures PastChecks(s.tasks[i]) && evaluate(txns[i]).Some?
      {
        EveryScheduleSound(concurrency, txns, evaluate, events + rest);
        assert (events + rest)[..|events|] == events;
        if !PastChecks(s.tasks[i]) {
          CancelledNeverReturns(concurrency, txns, evaluate, events + rest, |events|, i);
        }
      }
    }
    if forall i :: 0 <= i < |txns| ==> PastChecks(s.tasks[i]) && evaluate(txns[i]).Some? {
      assert Unstoppable(s, txns, evaluate);
      var rest := UnstoppableReturns(concurrency, txns, evaluate, events);
    }
  }

  // ----- Progress -----

  /** Steps of the system itself, as opposed to cancellation from outside. */
  predicate Internal(e: Event) {
    !e.Cancel? && !e.Interrupt?
  }

  function Remaining<R>(t: Task<R>): nat {
    match t case Ready => 4 case Waiting => 3 case Acquired => 2 case Evaluating => 1 case Done(_) => 0 case Failed => 0
  }

  function Work<R>(tasks: seq<Task<R>>): nat {
    if tasks == [] then 0 else Work(tasks[..|tasks| - 1]) + Remaining(tasks[|tasks| - 1])
  }

  lemma {:induction false} WorkUpdate<R>(tasks: seq<Task<R>>, i: nat, t: Task<R>)
    requires i < |tasks|
    ensures Work(tasks[i := t]) + Remaining(tasks[i]) == Work(tasks) + Remaining(t)
  {
    var n := |tasks| - 1;
    if i == n {
      assert tasks[i := t][..n] == tasks[..n];
    } else {
      assert tasks[i := t][..n] == tasks[..n][i := t];
      WorkUpdate(tasks[..n], i, t);
    }
  }

  /** What is left to do, the two ways in which the surroundings can interfere included. */
  function Rank<R>(s: State<R>): nat {
    Work(s.tasks) + (if s.outcome.Pending? then 1 else 0) + (if s.cancelled then 0 else 1)
  }

  /** Every enabled event brings the end nearer, so every schedule is finite. */
  lemma EnabledStepsLowerRank<T, R>(s: State<R>, e: Event, txns: seq<T>, evaluate: T -> Option<R>)
    requires Enabled(s, e, txns)
    ensures Rank(Step(s, e, txns, evaluate)) < Rank(s)
  {
    if e.Start? || e.Acquire? || e.Check? || e.Finish? || e.Interrupt? {
      WorkUpdate(s.tasks, e.i, Step(s, e, txns, evaluate).tasks[e.i]);
    }
  }

  lemma {:induction false} SomeoneHolds<R>(tasks: seq<Task<R>>) returns (i: nat)
    requires Holders(tasks) > 0
    ensures i < |tasks| && Holds(tasks[i])
  {
    var n := |tasks| - 1;
    if Holds(tasks[n]) {
      i := n;
    } else {
      i := SomeoneHolds(tasks[..n]);
    }
  }

  /** With at least one permit some internal step is enabled until the call is over. */
  lemma ProgressUntilOver<T, R>(concurrency: nat, txns: seq<T>, evaluate: T -> Option<R>, events: seq<Event>) returns (e: Event)
    requires concurrency >= 1
    requires Run(concurrency, txns, evaluate, events).outcome.Pending?
    ensures Internal(e) && Enabled(Run(concurrency, txns, evaluate, events), e, txns)
  {
    var s := Run(concurrency, txns, evaluate, events);
    EveryScheduleSound(concurrency, txns, evaluate, events);
    if AllDone(s.tasks) {
      return Collect;
    }
    var i :| 0 <= i < |s.tasks| && !s.tasks[i].Done?;
    match s.tasks[i]
    case Failed => e := Propagate;
    case Ready => e := Start(i);
    case Acquired => e := Check(i);
    case Evaluating => e := Finish(i);
    case Waiting =>
      if s.permits > 0 {
        e := Acquire(i);
      } else {
        var j := SomeoneHolds(s.tasks);
        e := if s.tasks[j].Acquired? then Check(j) else Finish(j);
      }
  }

  /** From every reachable state the system can, on its own, bring the call to its end. */
  lemma {:induction false} CanAlwaysEnd<T, R>(concurrency: nat, txns: seq<T>, evaluate: T -> Option<R>, events: seq<Event>)
    returns (rest: seq<Event>)
    requires concurrency >= 1
    ensures forall k :: 0 <= k < |rest| ==> Internal(rest[k])
    ensures !Run(concurrency, txns, evaluate, events + rest).outcome.Pending?
    decreases Rank(Run(concurrency, txns, evaluate, events))
  {
    if !Run(concurrency, txns, evaluate, events).outcome.Pending? {
      rest := [];
      assert events + rest == events;
    } else {
      var e := ProgressUntilOver(concurrency, txns, evaluate, events);
      var next := events + [e];
      assert next[..|next| - 1] == events;
      EnabledStepsLowerRank(Run(concurrency, txns, evaluate, events), e, txns, evaluate);
      var more := CanAlwaysEnd(concurrency, txns, evaluate, next);
      rest := [e] + more;
      assert events + rest == next + more;
    }
  }

  /**
   With at least one permit, no cancellation and an evaluator that never raises, every schedule
   so far can be completed, and then the call has returned one result per transaction, in order.
   */
  lemma QuietReplayReturnsAll<T(!new), R>(concurrency: nat, txns: seq<T>, evaluate: T -> Option<R>, events: seq<Event>)
    returns (rest: seq<Event>)
    requires concurrency >= 1 && Quiet(events) && forall t :: t in txns ==> evaluate(t).Some?
    ensures Quiet(events + rest)
    ensures var outcome := Run(concurrency, txns, evaluate, events + rest).outcome;
            && outcome.Returned? && |outcome.results| == |txns|
            && forall i :: 0 <= i < |txns| ==> Some(outcome.results[i]) == evaluate(txns[i])
  {
    rest := CanAlwaysEnd(concurrency, txns, evaluate, events);
    hide Run;
    QuietRunsNeverRaise(concurrency, txns, evaluate, events + rest);
    EveryScheduleSound(concurrency, txns, evaluate, events + rest);
  }

  /** With no permit at all and a transaction to replay, nothing is ever returned. */
  lemma {:induction false} NoPermitNoResult<T, R>(txns: seq<T>, evaluate: T -> Option<R>, events: seq<Event>)
    requires txns != []
    ensures var s := Run(0, txns, evaluate, events);
            !s.outcome.Returned? && forall i :: 0 <= i < |s.tasks| ==> !s.tasks[i].Done? && !Holds(s.tasks[i])
  {
    if events != [] {
      var before := events[..|events| - 1];
      NoPermitNoResult(txns, evaluate, before);
      EveryScheduleSound(0, txns, evaluate, before);
      assert !Run(0, txns, evaluate, before).tasks[0].Done?;
    }
  }
}
