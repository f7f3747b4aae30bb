/**
 The change-data-capture consumer: handling one record (parse, normalise, post with retries,
 dead-letter), and the poll-process-commit loop over partitions under crashes and restarts.
 Whether a record parses and normalises, and what the evaluation API answers, are inputs.
 */
module CdcConsumer {

  /** What a record turns out to be when it is parsed and normalised. */
  datatype Record = Corrupt | NotNormalizable | Delete | Transaction

  /** One answer of the API: 200 (with a readable body or not), one of 500, 502, 503 and 504, another status, or none. */
  datatype Response = Ok(readable: bool) | Transient | Rejected | NoAnswer

  /** The API's answers to the successive posts of one delivery; after the last there is none. */
  type Answers = seq<Response>

  function Answer(responses: Answers, attempt: nat): Response {
    if 1 <= attempt <= |responses| then responses[attempt - 1] else NoAnswer
  }

  predicate Retried(r: Response) {
    r.Transient? || r.NoAnswer? || (r.Ok? && !r.readable)
  }

  /** The number of posts and the result, when attempts `from..maxRetries` are left. */
  datatype Sending = Sending(posts: nat, success: bool)

  function Send(responses: Answers, attempt: nat, maxRetries: int): Sending
    decreases maxRetries - attempt
  {
    if attempt > maxRetries then Sending(0, false)
    else if !Retried(Answer(responses, attempt)) then Sending(1, Answer(responses, attempt).Ok?)
    else
      var rest := Send(responses, attempt + 1, maxRetries);
      rest.(posts := rest.posts + 1)
  }

  method SendForEvaluation(responses: Answers, maxRetries: int, dryRun: bool) returns (r: Sending)
    ensures r == if dryRun then Sending(0, true) else Send(responses, 1, maxRetries)
  {
    if dryRun {
      return Sending(0, true);
    }
    var attempt, posts := 1, 0;
    while attempt <= maxRetries
      invariant 1 <= attempt && posts == attempt - 1
      invariant var rest := Send(responses, attempt, maxRetries);
                Send(responses, 1, maxRetries) == Sending(posts + rest.posts, rest.success)
    {
      posts := posts + 1;
      var response := Answer(responses, attempt);
      if response.Ok? && response.readable {
        return Sending(posts, true);
      } else if response.Rejected? {
        return Sending(posts, false);
      }
      attempt := attempt + 1;
    }
    return Sending(posts, false);
  }

  /**
   At most `maxRetries` posts per delivery; all answers but the last are transient, absent or
   unreadable; posting stops early only at an answer that is none of these; and the record counts
   as evaluated exactly when that answer is a readable 200.
   */
  lemma {:induction false} SendMeaning(responses: Answers, attempt: nat, maxRetries: int)
    ensures var r := Send(responses, attempt, maxRetries);
            && r.posts <= (if maxRetries < attempt then 0 else maxRetries + 1 - attempt)
            && (forall a :: attempt <= a < attempt + r.posts - 1 ==> Answer(responses, a) in {Transient, NoAnswer, Ok(false)})
            && (attempt + r.posts <= maxRetries ==>
                  r.posts > 0 && Answer(responses, attempt + r.posts - 1) in {Rejected, Ok(true)})
            && (r.success <==> exists a :: attempt <= a <= maxRetries && FirstFinal(responses, attempt, a) && Answer(responses, a) == Ok(true))
    decreases maxRetries - attempt
  {
    if attempt <= maxRetries {
      if Retried(Answer(responses, attempt)) {
        SendMeaning(responses, attempt + 1, maxRetries);
        var rest := Send(responses, attempt + 1, maxRetries);
        if rest.success {
          var a :| attempt + 1 <= a <= maxRetries && FirstFinal(responses, attempt + 1, a) && Answer(responses, a) == Ok(true);
          assert FirstFinal(responses, attempt, a);
        }
        forall a | attempt <= a <= maxRetries && FirstFinal(responses, attempt, a) && Answer(responses, a) == Ok(true)
          ensures attempt + 1 <= a && FirstFinal(responses, attempt + 1, a)
        {
        }
      } else if Answer(responses, attempt).Ok? {
        assert FirstFinal(responses, attempt, attempt) && Answer(responses, attempt) == Ok(true);
      }
    }
  }

  /** All answers from attempt `from` up to, not including, attempt `a` are transient, absent or unreadable. */
  ghost predicate FirstFinal(responses: Answers, from: nat, a: nat) {
    forall b :: from <= b < a ==> Answer(responses, b) in {Transient, NoAnswer, Ok(false)}
  }

  // ----- One record -----

  /** The service's counters; `ignored` counts delete events, which the service does not count itself. */
  datatype Stats = Stats(processed: nat, evaluated: nat, deadLettered: nat, ignored: nat)

  datatype Service = Service(maxRetries: int, dryRun: bool)

  function Handle(service: Service, stats: Stats, record: Record, responses: Answers): Stats {
    var s := stats.(processed := stats.processed + 1);
    match record
    case Corrupt => s.(deadLettered := s.deadLettered + 1)
    case NotNormalizable => s.(deadLettered := s.deadLettered + 1)
    case Delete => s.(ignored := s.ignored + 1)
    case Transaction =>
      if service.dryRun || Send(responses, 1, service.maxRetries).success
      then s.(evaluated := s.evaluated + 1) else s.(deadLettered := s.deadLettered + 1)
  }

  predicate Balanced(stats: Stats) {
    stats.processed == stats.evaluated + stats.deadLettered + stats.ignored
  }

  /** What becomes of a delivered record. */
  datatype Fate = WasEvaluated | WasDeadLettered | WasIgnored

  /** The API accepts: some answer within the retries is a readable 200, and all before it are transient, absent or unreadable. */
  ghost predicate Accepted(responses: Answers, maxRetries: int) {
    exists a :: && 0 <= a < |responses| && a < maxRetries && responses[a] == Ok(true)
                && forall b :: 0 <= b < a ==> responses[b] in {Transient, NoAnswer, Ok(false)}
  }

  ghost function FateOf(service: Service, record: Record, responses: Answers): Fate {
    if record == Delete then WasIgnored
    else if record == Transaction && (service.dryRun || Accepted(responses, service.maxRetries)) then WasEvaluated
    else WasDeadLettered
  }

  lemma AcceptedExactly(responses: Answers, maxRetries: int)
    ensures Send(responses, 1, maxRetries).success <==> Accepted(responses, maxRetries)
  {
    SendMeaning(responses, 1, maxRetries);
    hide Send;
    if Send(responses, 1, maxRetries).success {
      var a :| 1 <= a <= maxRetries && FirstFinal(responses, 1, a) && Answer(responses, a) == Ok(true);
      forall b | 0 <= b < a - 1
        ensures responses[b] in {Transient, NoAnswer, Ok(false)}
      {
        assert Answer(responses, b + 1) == responses[b];
      }
      assert responses[a - 1] == Ok(true);
    }
    if Accepted(responses, maxRetries) {
      var a :| && 0 <= a < |responses| && a < maxRetries && responses[a] == Ok(true)
               && forall b :: 0 <= b < a ==> responses[b] in {Transient, NoAnswer, Ok(false)};
      assert FirstFinal(responses, 1, a + 1) && Answer(responses, a + 1) == Ok(true);
    }
  }

  /** Every record is counted once, in the counter of what becomes of it, and in no other. */
  lemma HandledExactly(service: Service, stats: Stats, record: Record, responses: Answers)
    ensures var t, fate := Handle(service, stats, record, responses), FateOf(service, record, responses);
            && t.processed == stats.processed + 1
            && t.evaluated == stats.evaluated + (if fate == WasEvaluated then 1 else 0)
            && t.deadLettered == stats.deadLettered + (if fate == WasDeadLettered then 1 else 0)
            && t.ignored == stats.ignored + (if fate == WasIgnored then 1 else 0)
  {
    AcceptedExactly(responses, service.maxRetries);
    hide Send, Accepted;
  }

  class CdcService {
    const service: Service
    var processedCount: nat
    var evaluatedCount: nat
    var dlqCount: nat
    ghost var ignoredCount: nat

    constructor (service: Service)
      ensures this.service == service
      ensures Counters() == Stats(0, 0, 0, 0)
    {
      this.service := service;
      processedCount, evaluatedCount, dlqCount, ignoredCount := 0, 0, 0, 0;
    }

    ghost function Counters(): Stats
      reads this
    {
      Stats(processedCount, evaluatedCount, dlqCount, ignoredCount)
    }

    method ProcessSingleMessage(record: Record, responses: Answers)
      modifies this
      ensures Counters() == Handle(service, old(Counters()), record, responses)
      ensures old(Balanced(Counters())) ==> Balanced(Counters())
      ensures var fate := FateOf(service, record, responses);
              && (evaluatedCount > old(evaluatedCount) <==> fate == WasEvaluated)
              && (dlqCount > old(dlqCount) <==> fate == WasDeadLettered)
    {
      HandledExactly(service, Counters(), record, responses);
      hide FateOf;
      processedCount := processedCount + 1;
      if record.Corrupt? {
        dlqCount := dlqCount + 1;
        return;
      }
      if record.NotNormalizable? {
        dlqCount := dlqCount + 1;
        return;
      }
      if record.Delete? {
        ignoredCount := ignoredCount + 1;
        return;
      }
      var sending := SendForEvaluation(responses, service.maxRetries, service.dryRun);
      if sending.success {
        evaluatedCount := evaluatedCount + 1;
      } else {
        dlqCount := dlqCount + 1;
      }
    }
  }

  // ----- The loop -----

  type Partition = nat

  /** The part of a polled batch that belongs to one partition: records `next..end` are still to do. */
  datatype Slice = Slice(partition: Partition, next: nat, end: nat)

  /** `handled` remembers which records were handled at least once, over all sessions. */
  datatype State = State(
    logs: map<Partition, seq<Record>>,
    committed: map<Partition, nat>,
    alive: bool,
    positions: map<Partition, nat>,
    batch: seq<Slice>,
    stats: Stats,
    handled: set<(Partition, nat)>)

  datatype Event =
    | Produce(partition: Partition, record: Record)
    | Poll(batch: seq<Slice>)
    | Process(responses: Answers)
    | Commit
    | Crash
    | Restart

  function Initial(): State {
    State(map[], map[], false, map[], [], Stats(0, 0, 0, 0), {})
  }

  function At(m: map<Partition, nat>, p: Partition): nat {
    if p in m then m[p] else 0
  }

  function Log(logs: map<Partition, seq<Record>>, p: Partition): seq<Record> {
    if p in logs then logs[p] else []
  }

  /** A poll returns records from the consumer's position on, each partition once. */
  predicate Fetchable(s: State, batch: seq<Slice>) {
    && (forall i :: 0 <= i < |batch| ==>
          batch[i].next == At(s.positions, batch[i].partition)
          && batch[i].next < batch[i].end <= |Log(s.logs, batch[i].partition)|)
    && (forall i, j :: 0 <= i < j < |batch| ==> batch[i].partition != batch[j].partition)
  }

  function Advance(positions: map<Partition, nat>, batch: seq<Slice>): map<Partition, nat> {
    if batch == [] then positions
    else Advance(positions, batch[..|batch| - 1])[batch[|batch| - 1].partition := batch[|batch| - 1].end]
  }

  function Step(service: Service, s: State, e: Event): State {
    match e
    case Produce(p, r) => s.(logs := s.logs[p := Log(s.logs, p) + [r]])
    case Poll(batch) =>
      if s.alive && s.batch == [] && Fetchable(s, batch)
      then s.(positions := Advance(s.positions, batch), batch := batch) else s
    case Process(responses) =>
      if s.alive && s.batch != [] && s.batch[0].next < s.batch[0].end && s.batch[0].end <= |Log(s.logs, s.batch[0].partition)| then
        var slice := s.batch[0];
        s.(batch := s.batch[0 := slice.(next := slice.next + 1)],
           stats := Handle(service, s.stats, Log(s.logs, slice.partition)[slice.next], responses),
           handled := s.handled + {(slice.partition, slice.next)})
      else s
    case Commit =>
      if s.alive && s.batch != [] && s.batch[0].next == s.batch[0].end
      then s.(committed := s.committed[s.batch[0].partition := s.batch[0].end], batch := s.batch[1..])
      else s
    case Crash => s.(alive := false, positions := map[], batch := [])
    case Restart => if s.alive then s else s.(alive := true, positions := s.committed, batch := [], stats := Stats(0, 0, 0, 0))
  }

  function Run(service: Service, events: seq<Event>): State {
    if events == [] then Initial()
    else Step(service, Run(service, events[..|events| - 1]), events[|events| - 1])
  }

  /** All records of a partition below offset `n` have been handled. */
  ghost predicate HandledBelow(handled: set<(Partition, nat)>, p: Partition, n: nat) {
    forall o :: 0 <= o < n ==> (p, o) in handled
  }

  /** The partition has a slice in the current batch. */
  ghost predicate InBatch(batch: seq<Slice>, p: Partition) {
    exists i :: 0 <= i < |batch| && batch[i].partition == p
  }

  ghost predicate Sound(s: State) {
    && Balanced(s.stats)
    && (forall p :: SoundOffset(s, p))
    && (forall i :: 0 <= i < |s.batch| ==> SoundSlice(s, s.batch[i]))
    && (forall i, j :: 0 <= i < j < |s.batch| ==> s.batch[i].partition != s.batch[j].partition)
    && (forall p :: InBatch(s.batch, p) || HandledBelow(s.handled, p, At(s.positions, p)))
  }

  ghost predicate SoundOffset(s: State, p: Partition) {
    At(s.committed, p) <= |Log(s.logs, p)| && HandledBelow(s.handled, p, At(s.committed, p))
  }

  /** A slice ends at the consumer's position, and everything before its next record is handled. */
  ghost predicate SoundSlice(s: State, slice: Slice) {
    && slice.next <= slice.end <= |Log(s.logs, slice.partition)|
    && slice.end == At(s.positions, slice.partition)
    && HandledBelow(s.handled, slice.partition, slice.next)
  }

  lemma {:induction false} AdvanceAt(positions: map<Partition, nat>, batch: seq<Slice>, p: Partition)
    ensures InBatch(batch, p) || At(Advance(positions, batch), p) == At(positions, p)
  {
    if batch != [] {
      var n := |batch| - 1;
      if batch[n].partition == p {
        assert InBatch(batch, p);
      } else {
        AdvanceAt(positions, batch[..n], p);
        if InBatch(batch[..n], p) {
          var i :| 0 <= i < n && batch[..n][i].partition == p;
          assert batch[i].partition == p;
        }
      }
    }
  }

  lemma {:induction false} AdvanceSets(positions: map<Partition, nat>, batch: seq<Slice>, i: nat)
    requires i < |batch| && forall j, k :: 0 <= j < k < |batch| ==> batch[j].partition != batch[k].partition
    ensures At(Advance(positions, batch), batch[i].partition) == batch[i].end
  {
    var n := |batch| - 1;
    if i < n {
      AdvanceSets(positions, batch[..n], i);
    }
  }

  lemma PollKeeps(service: Service, s: State, e: Event)
    requires Sound(s) && e.Poll?
    ensures Sound(Step(service, s, e))
  {
    var t := Step(service, s, e);
    if s.alive && s.batch == [] && Fetchable(s, e.batch) {
      forall i | 0 <= i < |t.batch|
        ensures SoundSlice(t, t.batch[i])
      {
        var p := t.batch[i].partition;
        AdvanceSets(s.positions, e.batch, i);
        assert !InBatch(s.batch, p);
      }
      forall p
        ensures SoundOffset(t, p)
      {
        assert SoundOffset(s, p);
      }
      forall p
        ensures InBatch(t.batch, p) || HandledBelow(t.handled, p, At(t.positions, p))
      {
        AdvanceAt(s.positions, e.batch, p);
        assert !InBatch(s.batch, p);
      }
    }
  }

  lemma ProcessKeeps(service: Service, s: State, e: Event)
    requires Sound(s) && e.Process?
    ensures Sound(Step(service, s, e))
  {
    var t := Step(service, s, e);
    if s.alive && s.batch != [] && s.batch[0].next < s.batch[0].end && s.batch[0].end <= |Log(s.logs, s.batch[0].partition)| {
      hide Handle, Balanced;
      assert Balanced(t.stats) by { HandleBalances(service, s, e.responses); }
      assert SoundSlice(s, s.batch[0]);
      forall i | 0 <= i < |t.batch|
        ensures SoundSlice(t, t.batch[i])
      {
        assert SoundSlice(s, s.batch[i]);
      }
      forall p
        ensures SoundOffset(t, p)
        ensures InBatch(t.batch, p) || HandledBelow(t.handled, p, At(t.positions, p))
      {
        assert SoundOffset(s, p);
        SamePartitions(s.batch, t.batch, p);
      }
    }
  }

  lemma HandleBalances(service: Service, s: State, responses: Answers)
    requires Balanced(s.stats)
    ensures Balanced(Step(service, s, Process(responses)).stats)
  {
  }

  lemma SamePartitions(a: seq<Slice>, b: seq<Slice>, p: Partition)
    requires |a| == |b| && forall i :: 0 <= i < |a| ==> a[i].partition == b[i].partition
    ensures InBatch(a, p) <==> InBatch(b, p)
  {
    if InBatch(a, p) {
      var i :| 0 <= i < |a| && a[i].partition == p;
      assert b[i].partition == p;
    }
    if InBatch(b, p) {
      var i :| 0 <= i < |b| && b[i].partition == p;
      assert a[i].partition == p;
    }
  }

  lemma CommitKeeps(service: Service, s: State, e: Event)
    requires Sound(s) && e.Commit?
    ensures Sound(Step(service, s, e))
  {
    var t := Step(service, s, e);
    if s.alive && s.batch != [] && s.batch[0].next == s.batch[0].end {
      var slice := s.batch[0];
      assert SoundSlice(s, slice);
      forall i | 0 <= i < |t.batch|
        ensures SoundSlice(t, t.batch[i])
      {
        assert SoundSlice(s, s.batch[i + 1]);
      }
      forall p
        ensures SoundOffset(t, p)
        ensures InBatch(t.batch, p) || HandledBelow(t.handled, p, At(t.positions, p))
      {
        assert SoundOffset(s, p);
        if p != slice.partition {
          assert forall i :: 0 < i < |s.batch| ==> t.batch[i - 1] == s.batch[i];
        }
      }
    }
  }

  lemma ProduceKeeps(service: Service, s: State, e: Event)
    requires Sound(s) && e.Produce?
    ensures Sound(Step(service, s, e))
  {
    var t := Step(service, s, e);
    forall p
      ensures |Log(s.logs, p)| <= |Log(t.logs, p)| && SoundOffset(t, p)
    {
      assert SoundOffset(s, p);
    }
    forall i | 0 <= i < |t.batch|
      ensures SoundSlice(t, t.batch[i])
    {
      assert SoundSlice(s, s.batch[i]);
    }
  }

  lemma CrashKeeps(s: State)
    requires Sound(s)
    ensures Sound(s.(alive := false, positions := map[], batch := []))
  {
    var t := s.(alive := false, positions := map[], batch := []);
    forall p
      ensures SoundOffset(t, p) && HandledBelow(t.handled, p, At(t.positions, p))
    {
      assert SoundOffset(s, p);
    }
  }

  lemma RestartKeeps(s: State)
    requires Sound(s)
    ensures Sound(s.(alive := true, positions := s.committed, batch := [], stats := Stats(0, 0, 0, 0)))
  {
    var t := s.(alive := true, positions := s.committed, batch := [], stats := Stats(0, 0, 0, 0));
    forall p
      ensures SoundOffset(t, p) && HandledBelow(t.handled, p, At(t.positions, p))
    {
      assert SoundOffset(s, p);
    }
  }

  lemma StepKeepsSound(service: Service, s: State, e: Event)
    requires Sound(s)
    ensures Sound(Step(service, s, e))
  {
    hide Sound;
    match e
    case Produce(_, _) => ProduceKeeps(service, s, e);
    case Poll(_) => PollKeeps(service, s, e);
    case Process(_) => ProcessKeeps(service, s, e);
    case Commit => CommitKeeps(service, s, e);
    case Crash => CrashKeeps(s);
    case Restart => RestartKeeps(s);
  }

  lemma EmptySound(t: State)
    requires t.committed == map[] && t.positions == map[] && t.batch == [] && Balanced(t.stats)
    ensures Sound(t)
  {
    forall p
      ensures SoundOffset(t, p) && HandledBelow(t.handled, p, At(t.positions, p))
    {
    }
  }

  lemma {:induction false} EveryRunSound(service: Service, events: seq<Event>)
    ensures Sound(Run(service, events))
  {
    hide Sound, Step;
    if events == [] {
      EmptySound(Initial());
    } else {
      EveryRunSound(service, events[..|events| - 1]);
      StepKeepsSound(service, Run(service, events[..|events| - 1]), events[|events| - 1]);
    }
  }

  /**
   Over every run with crashes and restarts the committed offset of a partition passes no record
   that was not handled, and every session's counters balance between records.
   */
  lemma CommittedRecordsAreHandled(service: Service, events: seq<Event>, p: Partition, o: nat)
    ensures var s := Run(service, events);
            && Balanced(s.stats)
            && (o < At(s.committed, p) ==> o < |Log(s.logs, p)| && (p, o) in s.handled)
  {
    hide Run;
    EveryRunSound(service, events);
    assert SoundOffset(Run(service, events), p);
  }

  /** A partition's log only grows at its end, so an offset always names the same record. */
  lemma {:induction false} LogsGrow(service: Service, events: seq<Event>, n: nat, p: Partition)
    requires n <= |events|
    ensures Log(Run(service, events[..n]).logs, p) <= Log(Run(service, events).logs, p)
  {
    if n == |events| {
      assert events[..n] == events;
    } else {
      var before := events[..|events| - 1];
      assert before[..n] == events[..n];
      LogsGrow(service, before, n, p);
      LogStep(service, Run(service, before), events[|events| - 1], p);
    }
  }

  lemma LogStep(service: Service, s: State, e: Event, p: Partition)
    ensures Log(s.logs, p) <= Log(Step(service, s, e).logs, p)
  {
    hide Handle, Fetchable, Advance;
  }

  // ----- What a session's counters count -----

  datatype Delivery = Delivery(record: Record, responses: Answers)

  /** The event handles the next record of the batch. */
  predicate Handles(s: State, e: Event) {
    e.Process? && s.alive && s.batch != [] && s.batch[0].next < s.batch[0].end
    && s.batch[0].end <= |Log(s.logs, s.batch[0].partition)|
  }

  /** The records handled since the last restart, in that order. */
  function Session(service: Service, events: seq<Event>): seq<Delivery> {
    if events == [] then []
    else
      var before, e := events[..|events| - 1], events[|events| - 1];
      var s := Run(service, before);
      if e.Restart? && !s.alive then []
      else if Handles(s, e) then
        Session(service, before) + [Delivery(Log(s.logs, s.batch[0].partition)[s.batch[0].next], e.responses)]
      else Session(service, before)
  }

  ghost function CountFate(service: Service, deliveries: seq<Delivery>, fate: Fate): nat {
    if deliveries == [] then 0
    else
      var d := deliveries[|deliveries| - 1];
      CountFate(service, deliveries[..|deliveries| - 1], fate)
      + if FateOf(service, d.record, d.responses) == fate then 1 else 0
  }

  ghost predicate CountsSession(service: Service, stats: Stats, deliveries: seq<Delivery>) {
    && stats.processed == |deliveries|
    && stats.evaluated == CountFate(service, deliveries, WasEvaluated)
    && stats.deadLettered == CountFate(service, deliveries, WasDeadLettered)
    && stats.ignored == CountFate(service, deliveries, WasIgnored)
  }

  lemma CountsOneMore(service: Service, stats: Stats, deliveries: seq<Delivery>, d: Delivery)
    requires CountsSession(service, stats, deliveries)
    ensures CountsSession(service, Handle(service, stats, d.record, d.responses), deliveries + [d])
  {
    var more := deliveries + [d];
    assert more[..|more| - 1] == deliveries;
    hide Handle, FateOf;
    HandledExactly(service, stats, d.record, d.responses);
  }

  lemma StatsOfStep(service: Service, s: State, e: Event)
    ensures var t := Step(service, s, e);
            t.stats == if e.Restart? && !s.alive then Stats(0, 0, 0, 0)
                       else if Handles(s, e) then
                         Handle(service, s.stats, Log(s.logs, s.batch[0].partition)[s.batch[0].next], e.responses)
                       else s.stats
  {
    hide Handle;
  }

  /** In every run the counters are those of the records handled in the current session, by what became of each. */
  lemma {:induction false} CountersExactly(service: Service, events: seq<Event>)
    ensures CountsSession(service, Run(service, events).stats, Session(service, events))
  {
    if events != [] {
      hide Step, Handle, Handles;
      var before, e := events[..|events| - 1], events[|events| - 1];
      var s := Run(service, before);
      CountersExactly(service, before);
      StatsOfStep(service, s, e);
      if !(e.Restart? && !s.alive) && Handles(s, e) {
        HandlesIndex(s, e);
        var d := Delivery(Log(s.logs, s.batch[0].partition)[s.batch[0].next], e.responses);
        hide CountsSession;
        CountsOneMore(service, s.stats, Session(service, before), d);
      }
    }
  }

  lemma HandlesIndex(s: State, e: Event)
    requires Handles(s, e)
    ensures e.Process? && s.batch != [] && s.batch[0].next < |Log(s.logs, s.batch[0].partition)|
  {
  }

  // ----- Nothing is left behind -----

  /** The rest of the first slice, then its commit. */
  function DrainSlice(count: nat): seq<Event> {
    if count == 0 then [Commit] else [Process([Ok(true)])] + DrainSlice(count - 1)
  }

  function RunFrom(service: Service, s: State, events: seq<Event>): State
    decreases |events|
  {
    if events == [] then s else RunFrom(service, Step(service, s, events[0]), events[1..])
  }

  lemma {:induction false} DrainSliceCommits(service: Service, s: State)
    requires Sound(s) && s.alive && s.batch != []
    ensures var slice := s.batch[0];
            var t := RunFrom(service, s, DrainSlice(slice.end - slice.next));
            && t.alive && t.logs == s.logs && t.positions == s.positions && t.batch == s.batch[1..]
            && t.committed == s.committed[slice.partition := slice.end]
    decreases s.batch[0].end - s.batch[0].next
  {
    var slice := s.batch[0];
    assert SoundSlice(s, slice);
    var events := DrainSlice(slice.end - slice.next);
    if slice.next == slice.end {
      assert events[1..] == [];
    } else {
      var t := Step(service, s, events[0]);
      StepKeepsSound(service, s, events[0]);
      assert events[1..] == DrainSlice(slice.end - (slice.next + 1));
      DrainSliceCommits(service, t);
    }
  }

  /** A record the log holds and the committed offset has not passed. */
  ghost predicate Outstanding(s: State, p: Partition, o: nat) {
    At(s.committed, p) <= o < |Log(s.logs, p)|
  }

  /** Crash, restart and a poll that fetches the given slice. */
  function Reopen(service: Service, s: State, slice: Slice): State {
    Step(service, Step(service, Step(service, s, Crash), Restart), Poll([slice]))
  }

  /** All that is left of a partition above its committed offset. */
  function Rest(s: State, p: Partition): Slice {
    Slice(p, At(s.committed, p), |Log(s.logs, p)|)
  }

  /** After a crash, restarting and polling the partition again brings back every outstanding record and handles it. */
  lemma OutstandingIsRedelivered(service: Service, s: State, p: Partition, o: nat, slice: Slice, t: State)
    requires Sound(s) && Outstanding(s, p, o) && slice == Rest(s, p)
    requires t == RunFrom(service, Reopen(service, s, slice), DrainSlice(slice.end - slice.next))
    ensures (p, o) in t.handled && o < At(t.committed, p)
  {
    hide Reopen, RunFrom, Sound, DrainSlice, HandledBelow, Log;
    var drain := DrainSlice(slice.end - slice.next);
    Reopened(service, s, p);
    ReopenKeeps(service, s, slice);
    var u := Reopen(service, s, slice);
    DrainSliceCommits(service, u);
    SoundAfter(service, u, drain);
    CommittedIsHandled(t, p, o);
  }

  lemma ReopenKeeps(service: Service, s: State, slice: Slice)
    requires Sound(s)
    ensures Sound(Reopen(service, s, slice))
  {
    hide Sound, Step;
    var s1 := Step(service, s, Crash);
    var s2 := Step(service, s1, Restart);
    StepKeepsSound(service, s, Crash);
    StepKeepsSound(service, s1, Restart);
    StepKeepsSound(service, s2, Poll([slice]));
  }

  lemma Reopened(service: Service, s: State, p: Partition)
    requires At(s.committed, p) < |Log(s.logs, p)|
    ensures var t := Reopen(service, s, Rest(s, p));
            t.alive && t.batch == [Rest(s, p)] && t.committed == s.committed
  {
    var s2 := Step(service, Step(service, s, Crash), Restart);
    assert s2.logs == s.logs && s2.positions == s.committed && s2.batch == [] && s2.alive;
    assert Fetchable(s2, [Rest(s, p)]);
  }

  lemma CommittedIsHandled(s: State, p: Partition, o: nat)
    requires Sound(s) && o < At(s.committed, p)
    ensures (p, o) in s.handled
  {
    assert SoundOffset(s, p);
  }

  lemma {:induction false} SoundAfter(service: Service, s: State, events: seq<Event>)
    requires Sound(s)
    ensures Sound(RunFrom(service, s, events))
    decreases |events|
  {
    if events != [] {
      StepKeepsSound(service, s, events[0]);
      SoundAfter(service, Step(service, s, events[0]), events[1..]);
    }
  }
}

/**
 The consumer of evaluated decisions, for contrast: it commits message by message and keeps
 polling after a handler has failed.
 */
module DecisionConsumer {

  /** How handling a message ends; a message that is no JSON ends the session. */
  datatype Handling = Succeeds | Fails | Malformed

  /** The committed offset after a session over one partition that starts at offset 0. */
  function Committed(messages: seq<Handling>): nat {
    if messages == [] || Malformed in messages[..|messages| - 1] then
      if messages == [] then 0 else Committed(messages[..|messages| - 1])
    else if messages[|messages| - 1].Succeeds? then |messages|
    else Committed(messages[..|messages| - 1])
  }

  method RunSession(messages: seq<Handling>) returns (committed: nat)
    ensures committed == Committed(messages)
  {
    committed := 0;
    for offset := 0 to |messages|
      invariant Malformed !in messages[..offset]
      invariant committed == Committed(messages[..offset])
    {
      assert messages[..offset + 1][..offset] == messages[..offset];
      if messages[offset].Malformed? {
        CommittedAfterStop(messages, offset);
        return;
      }
      if messages[offset].Succeeds? {
        committed := offset + 1;
      }
    }
    assert messages[..|messages|] == messages;
  }

  lemma {:induction false} CommittedAfterStop(messages: seq<Handling>, k: nat)
    requires k < |messages| && messages[k].Malformed?
    ensures Committed(messages) == Committed(messages[..k])
  {
    var n := |messages| - 1;
    if k < n {
      assert messages[..n][k].Malformed?;
      CommittedAfterStop(messages[..n], k);
      assert messages[..n][..k] == messages[..k];
    }
  }

  /** The offset of the first message that ends the session. */
  ghost predicate Reached(messages: seq<Handling>, j: nat) {
    j < |messages| && Malformed !in messages[..j]
  }

  /**
   A failed message is passed over, and so never redelivered, exactly when a later message of
   the same session succeeds; the log line that promises its redelivery holds only otherwise.
   */
  lemma {:induction false} LostExactly(messages: seq<Handling>, i: nat)
    requires Reached(messages, i) && messages[i].Fails?
    ensures i < Committed(messages) <==> exists j :: i < j && Reached(messages, j) && messages[j].Succeeds?
  {
    CommittedPasses(messages, i);
  }

  lemma {:induction false} CommittedPasses(messages: seq<Handling>, i: nat)
    ensures i < Committed(messages) <==> exists j :: i <= j && Reached(messages, j) && messages[j].Succeeds?
  {
    if messages != [] {
      var n := |messages| - 1;
      var before := messages[..n];
      CommittedPasses(before, i);
      forall j | 0 <= j < n
        ensures Reached(messages, j) <==> Reached(before, j)
      {
        assert before[..j] == messages[..j];
      }
      if exists j :: i <= j && Reached(before, j) && before[j].Succeeds? {
        var j :| i <= j && Reached(before, j) && before[j].Succeeds?;
        assert Reached(messages, j) && messages[j].Succeeds?;
      }
    }
  }
}
