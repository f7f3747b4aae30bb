/**
 Cumulative margin per client over a sliding window: the keyed stream operator (evict, append,
 emit; prune on timers), the plain lookback it stands for, and the in-memory tracker that
 simulates it. Time is in milliseconds, amounts are exact.
 */
module SlidingWindow {
  import opened Prelude

  type Key = string

  datatype Entry = Entry(time: int, orderValue: real, margin: real)

  /** The two facts of a trade that the aggregation reads; either may be absent. */
  datatype Facts = Facts(orderValue: Option<real>, upfrontPct: Option<real>)

  datatype Aggregate = Aggregate(orderValue: real, margin: real, count: nat)

  datatype Emission = Emission(key: Key, aggregate: Aggregate)

  datatype Timer = Timer(key: Key, time: int)

  function MakeKey(brokerId: string, clientCode: string): Key {
    brokerId + ":" + clientCode
  }

  function OrDefault(fact: Option<real>, default: real): real {
    if fact.Some? then fact.value else default
  }

  function MakeEntry(time: int, facts: Facts, defaultOrder: real, defaultPct: real): Entry {
    var order := OrDefault(facts.orderValue, defaultOrder);
    Entry(time, order, order * OrDefault(facts.upfrontPct, defaultPct) / 100.0)
  }

  /** The stream operator takes an absent fact as 0. */
  function OperatorEntry(time: int, facts: Facts): Entry {
    MakeEntry(time, facts, 0.0, 0.0)
  }

  /** The tracker takes an absent order value as 100000 and an absent percentage as 20. */
  function TrackerEntry(time: int, facts: Facts): Entry {
    MakeEntry(time, facts, 100000.0, 20.0)
  }

  /** What the two make of a trade: 100 times the margin is the order value times the percentage, with their own defaults. */
  lemma EntriesRead(time: int, facts: Facts)
    ensures var x, y := OperatorEntry(time, facts), TrackerEntry(time, facts);
            && x.time == time && y.time == time
            && (facts.orderValue.Some? ==> x.orderValue == facts.orderValue.value && y.orderValue == facts.orderValue.value)
            && (facts.orderValue.None? ==> x.orderValue == 0.0 && y.orderValue == 100000.0)
            && (facts.upfrontPct.Some? ==> 100.0 * x.margin == x.orderValue * facts.upfrontPct.value
                                           && 100.0 * y.margin == y.orderValue * facts.upfrontPct.value)
            && (facts.upfrontPct.None? ==> x.margin == 0.0 && 100.0 * y.margin == y.orderValue * 20.0)
  {
  }

  function Keep(entries: seq<Entry>, cutoff: int): seq<Entry> {
    if entries == [] then []
    else if entries[0].time >= cutoff then [entries[0]] + Keep(entries[1..], cutoff)
    else Keep(entries[1..], cutoff)
  }

  lemma KeepOne(e: Entry, cutoff: int)
    ensures Keep([e], cutoff) == if e.time >= cutoff then [e] else []
  {
    assert [e][1..] == [];
  }

  lemma {:induction false} KeepMembers(entries: seq<Entry>, cutoff: int, e: Entry)
    ensures e in Keep(entries, cutoff) <==> e in entries && e.time >= cutoff
  {
    if entries != [] {
      KeepMembers(entries[1..], cutoff, e);
    }
  }

  function Total(entries: seq<Entry>): Aggregate {
    if entries == [] then Aggregate(0.0, 0.0, 0)
    else
      var rest := Total(entries[..|entries| - 1]);
      var e := entries[|entries| - 1];
      Aggregate(rest.orderValue + e.orderValue, rest.margin + e.margin, rest.count + 1)
  }

  lemma {:induction false} TotalCounts(entries: seq<Entry>)
    ensures Total(entries).count == |entries|
  {
    if entries != [] {
      TotalCounts(entries[..|entries| - 1]);
    }
  }

  /** The total of two lists is the sum of their totals, and that of one entry is the entry itself. */
  lemma {:induction false} TotalIsSum(a: seq<Entry>, b: seq<Entry>, e: Entry)
    ensures Total([]) == Aggregate(0.0, 0.0, 0)
    ensures Total([e]) == Aggregate(e.orderValue, e.margin, 1)
    ensures var x, y := Total(a), Total(b);
            Total(a + b) == Aggregate(x.orderValue + y.orderValue, x.margin + y.margin, x.count + y.count)
    decreases |b|
  {
    assert [e][..0] == [];
    if b == [] {
      assert a + b == a;
    } else {
      var n := |b| - 1;
      TotalIsSum(a, b[..n], e);
      assert (a + b)[..|a| + n] == a + b[..n];
    }
  }

  method Sum(entries: seq<Entry>) returns (r: Aggregate)
    ensures r == Total(entries)
  {
    r := Aggregate(0.0, 0.0, 0);
    for i := 0 to |entries|
      invariant r == Total(entries[..i])
    {
      assert entries[..i + 1][..i] == entries[..i];
      r := Aggregate(r.orderValue + entries[i].orderValue, r.margin + entries[i].margin, r.count + 1);
    }
    assert entries[..|entries|] == entries;
  }

  /** Evict, then append. */
  function Slide(windowMs: int, entries: seq<Entry>, e: Entry): seq<Entry> {
    Keep(entries, e.time - windowMs) + [e]
  }

  // ----- The operator and the events it sees -----

  datatype State = State(entries: map<Key, seq<Entry>>, timers: set<Timer>, watermark: Option<int>)

  datatype Event =
    | Element(key: Key, time: int, facts: Facts)
    | Advance(watermark: int)
    | Fire(timer: Timer)

  const INITIAL := State(map[], {}, None)

  function Held(s: State, key: Key): seq<Entry> {
    if key in s.entries then s.entries[key] else []
  }

  function Raise(current: Option<int>, w: int): Option<int> {
    if current.Some? && current.value >= w then current else Some(w)
  }

  /** A pending timer that the watermark has reached. */
  predicate Due(s: State, timer: Timer) {
    timer in s.timers && s.watermark.Some? && timer.time <= s.watermark.value
  }

  /** One event. With `pruning` off a timer fires without effect on the entries. */
  function Step(windowMs: int, pruning: bool, s: State, e: Event): State {
    match e
    case Element(key, time, facts) =>
      State(s.entries[key := Slide(windowMs, Held(s, key), OperatorEntry(time, facts))],
            s.timers + {Timer(key, time + windowMs + 1)}, s.watermark)
    case Advance(w) => s.(watermark := Raise(s.watermark, w))
    case Fire(timer) =>
      if !Due(s, timer) then s
      else if !pruning then s.(timers := s.timers - {timer})
      else
        var surviving := Keep(Held(s, timer.key), timer.time - windowMs);
        State(if surviving == [] then s.entries - {timer.key} else s.entries[timer.key := surviving],
              s.timers - {timer}, s.watermark)
  }

  function Run(windowMs: int, pruning: bool, events: seq<Event>): State {
    if events == [] then INITIAL
    else Step(windowMs, pruning, Run(windowMs, pruning, events[..|events| - 1]), events[|events| - 1])
  }

  /** What one event emits: an aggregate for an element, nothing otherwise. */
  function Emitted(windowMs: int, s: State, e: Event): seq<Emission> {
    match e
    case Element(key, time, facts) =>
      [Emission(key, Total(Slide(windowMs, Held(s, key), OperatorEntry(time, facts))))]
    case _ => []
  }

  function Output(windowMs: int, pruning: bool, events: seq<Event>): seq<Emission> {
    if events == [] then []
    else
      var before := events[..|events| - 1];
      Output(windowMs, pruning, before) + Emitted(windowMs, Run(windowMs, pruning, before), events[|events| - 1])
  }

  /** The operator's keyed state, changed in place; the watermark belongs to the runtime. */
  class MarginWindow {
    const windowMs: int
    var entries: map<Key, seq<Entry>>
    var timers: set<Timer>

    constructor (windowSeconds: int)
      ensures windowMs == windowSeconds * 1000
      ensures Contents(None) == INITIAL
    {
      windowMs := windowSeconds * 1000;
      entries, timers := map[], {};
    }

    ghost function Contents(watermark: Option<int>): (s: State)
      reads this
    {
      State(entries, timers, watermark)
    }

    method ProcessElement(key: Key, time: int, facts: Facts, ghost watermark: Option<int>) returns (a: Aggregate)
      modifies this
      ensures Contents(watermark) == Step(windowMs, true, old(Contents(watermark)), Element(key, time, facts))
      ensures [Emission(key, a)] == Emitted(windowMs, old(Contents(watermark)), Element(key, time, facts))
    {
      var stored := if key in entries then entries[key] else [];
      var surviving := Keep(stored, time - windowMs);
      surviving := surviving + [OperatorEntry(time, facts)];
      entries := entries[key := surviving];
      timers := timers + {Timer(key, time + windowMs + 1)};
      a := Sum(surviving);
    }

    /** Called by the runtime with a timer it takes off the pending ones. */
    method OnTimer(timer: Timer, ghost watermark: Option<int>)
      requires Due(Contents(watermark), timer)
      modifies this
      ensures Contents(watermark) == Step(windowMs, true, old(Contents(watermark)), Fire(timer))
    {
      timers := timers - {timer};
      var stored := if timer.key in entries then entries[timer.key] else [];
      var surviving := Keep(stored, timer.time - windowMs);
      if surviving != [] {
        entries := entries[timer.key := surviving];
      } else {
        entries := entries - {timer.key};
      }
    }
  }

  // ----- What is held, whatever the schedule -----

  /** The time below which an event drops the entries of a key, if it drops any. */
  function Cut(windowMs: int, pruning: bool, s: State, e: Event, key: Key): Option<int> {
    match e
    case Element(k, time, _) => if k == key then Some(time - windowMs) else None
    case Advance(_) => None
    case Fire(timer) => if pruning && timer.key == key && Due(s, timer) then Some(timer.time - windowMs) else None
  }

  function Drop(entries: seq<Entry>, cut: Option<int>): seq<Entry> {
    if cut.Some? then Keep(entries, cut.value) else entries
  }

  predicate Above(time: int, cut: Option<int>) {
    cut.Some? ==> time >= cut.value
  }

  predicate IsElementOf(e: Event, key: Key) {
    e.Element? && e.key == key
  }

  lemma HeldStep(windowMs: int, pruning: bool, s: State, e: Event, key: Key)
    ensures Held(Step(windowMs, pruning, s, e), key)
         == Drop(Held(s, key), Cut(windowMs, pruning, s, e, key))
            + if IsElementOf(e, key) then [OperatorEntry(e.time, e.facts)] else []
  {
    var kept := Drop(Held(s, key), Cut(windowMs, pruning, s, e, key));
    assert kept + [] == kept;
  }

  /** What event `b` of a run cuts off for a key. */
  function CutAt(windowMs: int, pruning: bool, events: seq<Event>, b: nat, key: Key): Option<int>
    requires b < |events|
  {
    Cut(windowMs, pruning, Run(windowMs, pruning, events[..b]), events[b], key)
  }

  /** The element at `a` is aged out by no event after it and before `n`, neither by an element of its key nor by a timer. */
  ghost predicate Survives(windowMs: int, pruning: bool, events: seq<Event>, a: nat, n: nat)
    requires a < n <= |events| && events[a].Element?
  {
    forall b :: a < b < n ==> Above(events[a].time, CutAt(windowMs, pruning, events, b, events[a].key))
  }

  /** The entries of a key among the first `m` events that survive up to event `n`. */
  ghost function Survivors(windowMs: int, pruning: bool, events: seq<Event>, key: Key, m: nat, n: nat): seq<Entry>
    requires m <= n <= |events|
  {
    if m == 0 then []
    else
      var e := events[m - 1];
      Survivors(windowMs, pruning, events, key, m - 1, n)
      + if IsElementOf(e, key) && Survives(windowMs, pruning, events, m - 1, n) then [OperatorEntry(e.time, e.facts)] else []
  }

  lemma {:induction false} KeepAppend(a: seq<Entry>, b: seq<Entry>, cutoff: int)
    ensures Keep(a + b, cutoff) == Keep(a, cutoff) + Keep(b, cutoff)
  {
    if a == [] {
      assert a + b == b;
    } else {
      assert (a + b)[1..] == a[1..] + b;
      KeepAppend(a[1..], b, cutoff);
    }
  }

  /** Filtering a list that ends in at most one more entry. */
  lemma KeepLast(entries: seq<Entry>, e: Entry, held: bool, cutoff: int)
    ensures Keep(entries + (if held then [e] else []), cutoff)
         == Keep(entries, cutoff) + (if held && e.time >= cutoff then [e] else [])
  {
    if held {
      KeepAppend(entries, [e], cutoff);
      KeepOne(e, cutoff);
    } else {
      assert entries + [] == entries;
    }
  }

  lemma DropLast(entries: seq<Entry>, e: Entry, held: bool, cut: Option<int>)
    ensures Drop(entries + (if held then [e] else []), cut)
         == Drop(entries, cut) + (if held && Above(e.time, cut) then [e] else [])
  {
    if cut.Some? {
      KeepLast(entries, e, held, cut.value);
    }
  }

  /** One more event filters the survivors by what it cuts off. */
  lemma {:induction false} NextEventFilters(windowMs: int, pruning: bool, events: seq<Event>, key: Key, m: nat, n: nat)
    requires m <= n < |events|
    ensures Drop(Survivors(windowMs, pruning, events, key, m, n), CutAt(windowMs, pruning, events, n, key))
         == Survivors(windowMs, pruning, events, key, m, n + 1)
  {
    var cut := CutAt(windowMs, pruning, events, n, key);
    if m > 0 {
      var e := events[m - 1];
      var held := IsElementOf(e, key) && Survives(windowMs, pruning, events, m - 1, n);
      assert IsElementOf(e, key) ==>
          (Survives(windowMs, pruning, events, m - 1, n + 1) <==> held && Above(e.time, cut));
      hide Drop, Survives, CutAt, OperatorEntry, Above;
      NextEventFilters(windowMs, pruning, events, key, m - 1, n);
      if IsElementOf(e, key) {
        EntryTime(e.time, e.facts);
        DropLast(Survivors(windowMs, pruning, events, key, m - 1, n), OperatorEntry(e.time, e.facts), held, cut);
      } else {
        var before := Survivors(windowMs, pruning, events, key, m - 1, n);
        assert before + [] == before;
      }
    } else {
      assert Drop([], cut) == [];
    }
  }

  lemma EntryTime(time: int, facts: Facts)
    ensures OperatorEntry(time, facts).time == time
  {
  }

  /**
   For every schedule of elements, watermarks and timers, with pruning or without: exactly those
   entries of a key are held that no later element of the key and no timer of the key has aged out.
   */
  lemma {:induction false} HeldExactly(windowMs: int, pruning: bool, events: seq<Event>, key: Key, n: nat)
    requires n <= |events|
    ensures Held(Run(windowMs, pruning, events[..n]), key) == Survivors(windowMs, pruning, events, key, n, n)
  {
    if n > 0 {
      var before := events[..n - 1];
      assert events[..n][..n - 1] == before;
      HeldExactly(windowMs, pruning, events, key, n - 1);
      var s := Run(windowMs, pruning, before);
      HeldStep(windowMs, pruning, s, events[n - 1], key);
      NextEventFilters(windowMs, pruning, events, key, n - 1, n - 1);
      assert events[n - 1].Element? ==> Survives(windowMs, pruning, events, n - 1, n);
      hide Drop, Survives, OperatorEntry, Step;
      assert Run(windowMs, pruning, events[..n]) == Step(windowMs, pruning, s, events[n - 1]);
    }
  }

  // ----- When pruning shows -----

  lemma {:induction false} SameTimers(windowMs: int, events: seq<Event>)
    ensures var s, t := Run(windowMs, true, events), Run(windowMs, false, events);
            s.timers == t.timers && s.watermark == t.watermark
  {
    if events != [] {
      SameTimers(windowMs, events[..|events| - 1]);
    }
  }

  /** Without pruning, the entry of element `a` is counted when element `i` of the same key arrives. */
  ghost predicate Counted(windowMs: int, events: seq<Event>, a: nat, i: nat)
    requires a < i < |events|
  {
    && events[a].Element? && IsElementOf(events[i], events[a].key)
    && forall b :: a < b <= i && IsElementOf(events[b], events[a].key) ==> events[a].time >= events[b].time - windowMs
  }

  /** A due timer of its key fires between the two and is more than a window later than element `a`. */
  ghost predicate Pruned(windowMs: int, events: seq<Event>, a: nat, i: nat)
    requires a < i < |events| && events[a].Element?
  {
    exists j :: a < j < i && PrunedAt(windowMs, events, a, j)
  }

  ghost predicate PrunedAt(windowMs: int, events: seq<Event>, a: nat, j: nat)
    requires a < j < |events| && events[a].Element?
  {
    && events[j].Fire? && events[j].timer.key == events[a].key
    && Due(Run(windowMs, true, events[..j]), events[j].timer)
    && events[a].time < events[j].timer.time - windowMs
  }

  /** One event cuts off more with pruning than without exactly when it is a due timer of the key. */
  lemma CutsCompared(windowMs: int, events: seq<Event>, a: nat, b: nat)
    requires a < b < |events| && events[a].Element?
    ensures var time, key := events[a].time, events[a].key;
            && (Above(time, CutAt(windowMs, false, events, b, key))
                <==> (IsElementOf(events[b], key) ==> time >= events[b].time - windowMs))
            && (Above(time, CutAt(windowMs, true, events, b, key))
                <==> Above(time, CutAt(windowMs, false, events, b, key)) && !PrunedAt(windowMs, events, a, b))
  {
    SameTimers(windowMs, events[..b]);
  }

  lemma SurvivalCompared(windowMs: int, events: seq<Event>, a: nat, i: nat)
    requires a < i < |events| && events[a].Element? && IsElementOf(events[i], events[a].key)
    ensures Survives(windowMs, false, events, a, i + 1) <==> Counted(windowMs, events, a, i)
    ensures Survives(windowMs, true, events, a, i + 1)
       <==> Counted(windowMs, events, a, i) && !Pruned(windowMs, events, a, i)
  {
    forall b | a < b < i + 1
      ensures var time, key := events[a].time, events[a].key;
              && (Above(time, CutAt(windowMs, false, events, b, key))
                  <==> (IsElementOf(events[b], key) ==> time >= events[b].time - windowMs))
              && (Above(time, CutAt(windowMs, true, events, b, key))
                  <==> Above(time, CutAt(windowMs, false, events, b, key)) && !PrunedAt(windowMs, events, a, b))
    {
      CutsCompared(windowMs, events, a, b);
    }
    assert !PrunedAt(windowMs, events, a, i);
    hide CutAt, PrunedAt, Above;
  }

  /** Pruning only takes entries away, so equally many entries are the same entries. */
  lemma {:induction false} SurvivorsCompared(windowMs: int, events: seq<Event>, i: nat, m: nat)
    requires m <= i < |events| && events[i].Element?
    ensures var key := events[i].key;
            var p, q := Survivors(windowMs, true, events, key, m, i + 1), Survivors(windowMs, false, events, key, m, i + 1);
            && |p| <= |q|
            && (|p| == |q| ==> p == q)
            && (|p| == |q| <==> forall a :: 0 <= a < m && Counted(windowMs, events, a, i) ==> !Pruned(windowMs, events, a, i))
  {
    if m > 0 {
      SurvivorsCompared(windowMs, events, i, m - 1);
      hide Survives, Pruned, OperatorEntry;
      if IsElementOf(events[m - 1], events[i].key) {
        SurvivalCompared(windowMs, events, m - 1, i);
      }
    }
  }

  lemma EmittedIsHeld(windowMs: int, pruning: bool, events: seq<Event>, i: nat)
    requires i < |events| && events[i].Element?
    ensures Emitted(windowMs, Run(windowMs, pruning, events[..i]), events[i])
         == [Emission(events[i].key, Total(Survivors(windowMs, pruning, events, events[i].key, i + 1, i + 1)))]
  {
    assert events[..i + 1][..i] == events[..i];
    HeldExactly(windowMs, pruning, events, events[i].key, i + 1);
    hide OperatorEntry, Survivors, Total, Slide;
  }

  /** One element's aggregate shows the pruning exactly when an entry it would count has been pruned. */
  lemma EmissionShowsExactly(windowMs: int, events: seq<Event>, i: nat)
    requires i < |events| && events[i].Element?
    ensures Emitted(windowMs, Run(windowMs, true, events[..i]), events[i])
            == Emitted(windowMs, Run(windowMs, false, events[..i]), events[i])
       <==> forall a :: 0 <= a < i && Counted(windowMs, events, a, i) ==> !Pruned(windowMs, events, a, i)
  {
    var key := events[i].key;
    var p, q := Survivors(windowMs, true, events, key, i + 1, i + 1), Survivors(windowMs, false, events, key, i + 1, i + 1);
    EmittedIsHeld(windowMs, true, events, i);
    EmittedIsHeld(windowMs, false, events, i);
    SurvivorsCompared(windowMs, events, i, i);
    assert Survives(windowMs, true, events, i, i + 1) && Survives(windowMs, false, events, i, i + 1);
    TotalCounts(p);
    TotalCounts(q);
    hide Total, Emitted, Survives, Counted, Pruned, OperatorEntry;
  }

  lemma {:induction false} SameNumberOfEmissions(windowMs: int, events: seq<Event>)
    ensures |Output(windowMs, true, events)| == |Output(windowMs, false, events)|
  {
    if events != [] {
      SameNumberOfEmissions(windowMs, events[..|events| - 1]);
    }
  }

  /** Element `i` misses an entry it would count. */
  ghost predicate Misses(windowMs: int, events: seq<Event>, i: nat)
    requires i < |events|
  {
    exists a :: 0 <= a < i && Counted(windowMs, events, a, i) && Pruned(windowMs, events, a, i)
  }

  /** Some element up to event `n` misses an entry it would count. */
  ghost predicate PruningShows(windowMs: int, events: seq<Event>, n: nat)
    requires n <= |events|
  {
    exists i :: 0 <= i < n && Misses(windowMs, events, i)
  }

  lemma ShowsStep(windowMs: int, events: seq<Event>, n: nat)
    requires n < |events|
    ensures PruningShows(windowMs, events, n + 1) <==> PruningShows(windowMs, events, n) || Misses(windowMs, events, n)
  {
    hide Counted, Pruned;
    if PruningShows(windowMs, events, n + 1) && !PruningShows(windowMs, events, n) {
      var i :| 0 <= i < n + 1 && Misses(windowMs, events, i);
      assert i == n;
    }
  }

  /** One more event makes the outputs differ, if they do not yet, exactly when it is an element that misses an entry. */
  lemma OutputsStep(windowMs: int, before: seq<Event>, e: Event, events: seq<Event>, n: nat)
    requires n < |events| && before == events[..n] && e == events[n]
    ensures Output(windowMs, true, before + [e]) == Output(windowMs, false, before + [e])
       <==> Output(windowMs, true, before) == Output(windowMs, false, before) && !Misses(windowMs, events, n)
  {
    SameNumberOfEmissions(windowMs, before);
    OutputExtends(windowMs, true, before, e);
    OutputExtends(windowMs, false, before, e);
    if e.Element? {
      EmissionShowsExactly(windowMs, events, n);
    } else {
      assert !Misses(windowMs, events, n);
    }
    hide Output, Run, Counted, Pruned, Total, Slide;
    SplitOutputs(Output(windowMs, true, before), Output(windowMs, false, before),
                 Emitted(windowMs, Run(windowMs, true, before), e), Emitted(windowMs, Run(windowMs, false, before), e));
  }

  lemma NothingShowsYet(windowMs: int, events: seq<Event>)
    ensures Output(windowMs, true, events[..0]) == Output(windowMs, false, events[..0])
    ensures !PruningShows(windowMs, events, 0)
  {
    hide Misses;
  }

  lemma {:induction false} OutputsCompared(windowMs: int, events: seq<Event>, n: nat)
    requires n <= |events|
    ensures Output(windowMs, true, events[..n]) != Output(windowMs, false, events[..n])
       <==> PruningShows(windowMs, events, n)
  {
    hide Output, PruningShows, Misses;
    if n == 0 {
      NothingShowsYet(windowMs, events);
    } else {
      OutputsCompared(windowMs, events, n - 1);
      ShowsStep(windowMs, events, n - 1);
      assert events[..n] == events[..n - 1] + [events[n - 1]];
      OutputsStep(windowMs, events[..n - 1], events[n - 1], events, n - 1);
    }
  }

  lemma SplitOutputs(a: seq<Emission>, b: seq<Emission>, x: seq<Emission>, y: seq<Emission>)
    requires |a| == |b|
    ensures a + x == b + y <==> a == b && x == y
  {
    if a + x == b + y {
      assert a == (a + x)[..|a|] == b && x == (a + x)[|a|..] == y;
    }
  }

  lemma OutputExtends(windowMs: int, pruning: bool, events: seq<Event>, e: Event)
    ensures Output(windowMs, pruning, events + [e])
         == Output(windowMs, pruning, events) + Emitted(windowMs, Run(windowMs, pruning, events), e)
  {
    var all := events + [e];
    assert all[..|all| - 1] == events;
  }

  /**
   For every schedule, late elements included: pruning changes what is emitted exactly when a
   timer prunes an entry that a later element of its key, older than that timer, would still count.
   */
  lemma PruningShowsExactly(windowMs: int, events: seq<Event>)
    ensures Output(windowMs, true, events) != Output(windowMs, false, events)
       <==> PruningShows(windowMs, events, |events|)
  {
    assert events[..|events|] == events;
    OutputsCompared(windowMs, events, |events|);
  }

  /** Every element is at or above the watermark when it arrives. */
  ghost predicate OnTime(events: seq<Event>) {
    forall i :: 0 <= i < |events| && events[i].Element? ==>
      var w := WatermarkAfter(events[..i]);
      w.Some? ==> events[i].time >= w.value
  }

  function WatermarkAfter(events: seq<Event>): Option<int> {
    if events == [] then None
    else
      var before := WatermarkAfter(events[..|events| - 1]);
      var e := events[|events| - 1];
      if e.Advance? then Raise(before, e.watermark) else before
  }

  lemma {:induction false} WatermarkOfRun(windowMs: int, pruning: bool, events: seq<Event>)
    ensures Run(windowMs, pruning, events).watermark == WatermarkAfter(events)
  {
    if events != [] {
      WatermarkOfRun(windowMs, pruning, events[..|events| - 1]);
    }
  }

  lemma {:induction false} WatermarkRises(events: seq<Event>, j: nat, i: nat)
    requires j <= i <= |events|
    ensures var v, w := WatermarkAfter(events[..j]), WatermarkAfter(events[..i]);
            v.Some? ==> w.Some? && v.value <= w.value
    decreases i
  {
    if j < i {
      WatermarkRises(events, j, i - 1);
      assert events[..i][..i - 1] == events[..i - 1];
    }
  }

  /** Whatever the schedule of watermarks and timers, pruning never changes what on-time elements emit. */
  lemma PruningUnobservable(windowMs: int, events: seq<Event>)
    requires OnTime(events)
    ensures Output(windowMs, true, events) == Output(windowMs, false, events)
  {
    hide Output, Run, WatermarkAfter;
    PruningShowsExactly(windowMs, events);
    if PruningShows(windowMs, events, |events|) {
      var i :| 0 <= i < |events| && Misses(windowMs, events, i);
      var a :| 0 <= a < i && Counted(windowMs, events, a, i) && Pruned(windowMs, events, a, i);
      var j :| a < j < i && PrunedAt(windowMs, events, a, j);
      WatermarkOfRun(windowMs, true, events[..j]);
      WatermarkRises(events, j, i);
      assert false;
    }
  }

  /** The largest element time so far. */
  function MaxTime(events: seq<Event>): Option<int> {
    if events == [] then None
    else
      var before := MaxTime(events[..|events| - 1]);
      var e := events[|events| - 1];
      if e.Element? then Raise(before, e.time) else before
  }

  /** Watermarks trail the largest time by `latenessMs` and 1 ms, and no element is later than that bound. */
  ghost predicate BoundedDisorder(latenessMs: int, events: seq<Event>) {
    forall i :: 0 <= i < |events| ==>
      var m := MaxTime(events[..i]);
      && (events[i].Element? && m.Some? ==> events[i].time >= m.value - latenessMs)
      && (events[i].Advance? ==> m.Some? && events[i].watermark <= m.value - latenessMs - 1)
  }

  lemma {:induction false} WatermarkTrails(latenessMs: int, events: seq<Event>)
    requires BoundedDisorder(latenessMs, events)
    ensures var w, m := WatermarkAfter(events), MaxTime(events);
            w.Some? ==> m.Some? && w.value <= m.value - latenessMs - 1
  {
    if events != [] {
      var before := events[..|events| - 1];
      assert forall i :: 0 <= i < |before| ==> before[..i] == events[..i];
      WatermarkTrails(latenessMs, before);
    }
  }

  /** With the topology's bounded out-of-orderness, disorder within the bound is enough. */
  lemma BoundedDisorderIsOnTime(latenessMs: int, events: seq<Event>)
    requires BoundedDisorder(latenessMs, events)
    ensures OnTime(events)
  {
    forall i | 0 <= i < |events| && events[i].Element?
      ensures var w := WatermarkAfter(events[..i]); w.Some? ==> events[i].time >= w.value
    {
      var before := events[..i];
      assert forall j :: 0 <= j < i ==> before[..j] == events[..j];
      WatermarkTrails(latenessMs, before);
    }
  }

  /** A late element: the watermark has passed it by 1 ms, and the timer of its predecessor one window before has fired. */
  function LateRun(windowMs: int, key: Key, first: Facts, second: Facts): seq<Event> {
    [Element(key, 0, first), Advance(windowMs + 1), Fire(Timer(key, windowMs + 1)), Element(key, windowMs, second)]
  }

  lemma LateRunPrefix(windowMs: int, pruning: bool, events: seq<Event>)
    requires |events| == 2 && events[0].Element? && events[1].Advance?
    ensures var s := Run(windowMs, pruning, events);
            s.watermark == Some(events[1].watermark) && Timer(events[0].key, events[0].time + windowMs + 1) in s.timers
  {
    assert events[..1][..0] == [];
    assert Run(windowMs, pruning, events[..1]) == Step(windowMs, pruning, INITIAL, events[0]);
  }

  /** Being on time is needed: a single millisecond behind the watermark the pruning shows, whatever the trades. */
  lemma LateElementSeesPruning(windowMs: nat, key: Key, first: Facts, second: Facts)
    ensures var events := LateRun(windowMs, key, first, second);
            && Run(windowMs, true, events[..2]).watermark == Some(events[3].time + 1)
            && Output(windowMs, true, events) != Output(windowMs, false, events)
  {
    hide Output, Run;
    var events := LateRun(windowMs, key, first, second);
    LateRunPrefix(windowMs, true, events[..2]);
    assert PrunedAt(windowMs, events, 0, 2);
    assert Counted(windowMs, events, 0, 3) && Pruned(windowMs, events, 0, 3);
    assert Misses(windowMs, events, 3);
    PruningShowsExactly(windowMs, events);
  }

  // ----- Quiet keys are emptied -----

  /** Every held entry has its own pending timer and stems from an element of its key. */
  ghost predicate Timed(windowMs: int, s: State, events: seq<Event>) {
    forall k, e :: k in s.entries && e in s.entries[k] ==>
      && Timer(k, e.time + windowMs + 1) in s.timers
      && exists i :: 0 <= i < |events| && IsElement(events[i], k, e.time)
  }

  ghost predicate IsElement(event: Event, key: Key, time: int) {
    event.Element? && event.key == key && event.time == time
  }

  /** An entry held after an event was held before and is not aged out by it, or is the element itself. */
  lemma WhereEntriesComeFrom(windowMs: int, s: State, event: Event, k: Key, e: Entry)
    requires e in Held(Step(windowMs, true, s, event), k)
    ensures || IsElement(event, k, e.time)
            || (e in Held(s, k)
                && (event.Fire? && Due(s, event.timer) && event.timer.key == k ==> e.time >= event.timer.time - windowMs))
  {
    match event
    case Element(key, time, facts) => KeepMembers(Held(s, k), time - windowMs, e);
    case Advance(_) =>
    case Fire(timer) => KeepMembers(Held(s, k), timer.time - windowMs, e);
  }

  lemma {:induction false} EntriesAreTimed(windowMs: int, events: seq<Event>)
    ensures Timed(windowMs, Run(windowMs, true, events), events)
  {
    if events != [] {
      var n := |events| - 1;
      var s, t := Run(windowMs, true, events[..n]), Run(windowMs, true, events);
      EntriesAreTimed(windowMs, events[..n]);
      forall k, e | k in t.entries && e in t.entries[k]
        ensures Timer(k, e.time + windowMs + 1) in t.timers
        ensures exists i :: 0 <= i < |events| && IsElement(events[i], k, e.time)
      {
        WhereEntriesComeFrom(windowMs, s, events[n], k, e);
        if IsElement(events[n], k, e.time) {
        } else {
          hide Keep, Slide, OperatorEntry;
          var i :| 0 <= i < n && IsElement(events[..n][i], k, e.time);
          assert IsElement(events[i], k, e.time);
        }
      }
    }
  }

  /** State is kept only for keys that hold an entry. */
  lemma {:induction false} NoEmptyState(windowMs: int, events: seq<Event>, key: Key)
    ensures var s := Run(windowMs, true, events); key in s.entries ==> s.entries[key] != []
  {
    if events != [] {
      NoEmptyState(windowMs, events[..|events| - 1], key);
      hide Keep, OperatorEntry;
    }
  }

  /**
   Once the watermark has passed every element of a key by the window and 1 ms, and its due
   timers have fired, nothing is kept for that key, late elements or not.
   */
  lemma QuietKeyIsEmptied(windowMs: int, events: seq<Event>, key: Key)
    requires var s := Run(windowMs, true, events);
             && s.watermark.Some?
             && (forall i :: 0 <= i < |events| && events[i].Element? && events[i].key == key ==>
                   events[i].time + windowMs + 1 <= s.watermark.value)
             && (forall timer :: timer in s.timers && timer.key == key ==> !Due(s, timer))
    ensures key !in Run(windowMs, true, events).entries
  {
    var s := Run(windowMs, true, events);
    EntriesAreTimed(windowMs, events);
    NoEmptyState(windowMs, events, key);
    var held := Held(s, key);
    assert held != [] ==> held[0] in held;
    forall e
      ensures e !in held
    {
      var timer := Timer(key, e.time + windowMs + 1);
      assert timer in s.timers ==> !Due(s, timer);
    }
  }

  // ----- What the window holds -----

  /** The entries of one key, in order of arrival. */
  function Arrivals(events: seq<Event>, key: Key): seq<Entry> {
    if events == [] then []
    else
      var e := events[|events| - 1];
      var before := Arrivals(events[..|events| - 1], key);
      if e.Element? && e.key == key then before + [OperatorEntry(e.time, e.facts)] else before
  }

  function Window(windowMs: int, arrivals: seq<Entry>): seq<Entry> {
    if arrivals == [] then []
    else Slide(windowMs, Window(windowMs, arrivals[..|arrivals| - 1]), arrivals[|arrivals| - 1])
  }

  /** Other keys, watermarks and timers do not touch a key's window. */
  lemma {:induction false} KeyedRunIsWindow(windowMs: int, events: seq<Event>, key: Key)
    ensures Held(Run(windowMs, false, events), key) == Window(windowMs, Arrivals(events, key))
  {
    if events != [] {
      KeyedRunIsWindow(windowMs, events[..|events| - 1], key);
      var e := events[|events| - 1];
      if e.Element? && e.key == key {
        var before := Arrivals(events[..|events| - 1], key);
        var all := Arrivals(events, key);
        assert all[..|all| - 1] == before;
      }
    }
  }

  /** Among the first `n` arrivals, no later one is more than the window after arrival `i`. */
  ghost predicate HeldAt(windowMs: int, arrivals: seq<Entry>, i: nat, n: nat)
    requires i < n <= |arrivals|
  {
    forall j :: i < j < n ==> arrivals[i].time >= arrivals[j].time - windowMs
  }

  /** Those of the first `k` arrivals that are held after `n` arrivals. */
  ghost function Unexpired(windowMs: int, arrivals: seq<Entry>, k: nat, n: nat): seq<Entry>
    requires k <= n <= |arrivals|
  {
    if k == 0 then []
    else Unexpired(windowMs, arrivals, k - 1, n)
         + (if HeldAt(windowMs, arrivals, k - 1, n) then [arrivals[k - 1]] else [])
  }

  lemma HeldAtNext(windowMs: int, arrivals: seq<Entry>, i: nat, n: nat)
    requires i < n < |arrivals|
    ensures HeldAt(windowMs, arrivals, i, n + 1)
       <==> HeldAt(windowMs, arrivals, i, n) && arrivals[i].time >= arrivals[n].time - windowMs
  {
  }

  lemma {:induction false} NextArrivalFilters(windowMs: int, arrivals: seq<Entry>, k: nat, n: nat)
    requires k <= n < |arrivals|
    ensures Keep(Unexpired(windowMs, arrivals, k, n), arrivals[n].time - windowMs)
         == Unexpired(windowMs, arrivals, k, n + 1)
  {
    if k == 0 {
      assert Keep([], arrivals[n].time - windowMs) == [];
    } else {
      hide Keep, HeldAt;
      HeldAtNext(windowMs, arrivals, k - 1, n);
      NextArrivalFilters(windowMs, arrivals, k - 1, n);
      KeepLast(Unexpired(windowMs, arrivals, k - 1, n), arrivals[k - 1], HeldAt(windowMs, arrivals, k - 1, n),
               arrivals[n].time - windowMs);
    }
  }

  /** For any order of arrival, exactly the entries no later arrival has aged out are held. */
  lemma {:induction false} WindowIsSurvivors(windowMs: int, arrivals: seq<Entry>, n: nat)
    requires n <= |arrivals|
    ensures Window(windowMs, arrivals[..n]) == Unexpired(windowMs, arrivals, n, n)
  {
    if n > 0 {
      WindowIsSurvivors(windowMs, arrivals, n - 1);
      assert arrivals[..n][..n - 1] == arrivals[..n - 1];
      NextArrivalFilters(windowMs, arrivals, n - 1, n - 1);
    }
  }

  /** Arrivals are never more than `disorderMs` behind an earlier one. */
  ghost predicate Disorder(disorderMs: int, arrivals: seq<Entry>) {
    forall i, j :: 0 <= i < j < |arrivals| ==> arrivals[j].time >= arrivals[i].time - disorderMs
  }

  lemma {:induction false} RecentArrivalsSurvive(windowMs: int, disorderMs: int, arrivals: seq<Entry>, k: nat)
    requires arrivals != [] && k <= |arrivals| && Disorder(disorderMs, arrivals)
    requires windowMs >= 0 && disorderMs >= 0
    ensures var now := arrivals[|arrivals| - 1].time;
            && Keep(Unexpired(windowMs, arrivals, k, |arrivals|), now + disorderMs - windowMs)
               == Keep(arrivals[..k], now + disorderMs - windowMs)
            && Keep(Unexpired(windowMs, arrivals, k, |arrivals|), now - windowMs)
               == Unexpired(windowMs, arrivals, k, |arrivals|)
  {
    var n := |arrivals|;
    var now := arrivals[n - 1].time;
    if k > 0 {
      var x, held := arrivals[k - 1], HeldAt(windowMs, arrivals, k - 1, n);
      RecentIsHeld(windowMs, disorderMs, arrivals, k - 1);
      hide Keep, HeldAt, Disorder;
      RecentArrivalsSurvive(windowMs, disorderMs, arrivals, k - 1);
      assert arrivals[..k] == arrivals[..k - 1] + [x];
      var before := Unexpired(windowMs, arrivals, k - 1, n);
      KeepLast(arrivals[..k - 1], x, true, now + disorderMs - windowMs);
      KeepLast(before, x, held, now + disorderMs - windowMs);
      KeepLast(before, x, held, now - windowMs);
    }
  }

  lemma RecentIsHeld(windowMs: int, disorderMs: int, arrivals: seq<Entry>, i: nat)
    requires i < |arrivals| && Disorder(disorderMs, arrivals)
    requires windowMs >= 0 && disorderMs >= 0
    ensures var x, now := arrivals[i], arrivals[|arrivals| - 1].time;
            && (x.time >= now + disorderMs - windowMs ==> HeldAt(windowMs, arrivals, i, |arrivals|))
            && (HeldAt(windowMs, arrivals, i, |arrivals|) ==> x.time >= now - windowMs)
  {
    var now := arrivals[|arrivals| - 1].time;
    assert forall j :: 0 <= j < |arrivals| ==> arrivals[j].time <= now + disorderMs;
  }

  /**
   With arrivals at most `disorderMs` out of order the window is the lookback up to its old
   edge: it holds nothing older than the window, and everything younger than the window less
   the disorder.
   */
  lemma WindowNearLookback(windowMs: int, disorderMs: int, arrivals: seq<Entry>)
    requires arrivals != [] && Disorder(disorderMs, arrivals)
    requires windowMs >= 0 && disorderMs >= 0
    ensures var now, held := arrivals[|arrivals| - 1].time, Window(windowMs, arrivals);
            && Keep(held, now - windowMs) == held
            && Keep(held, now + disorderMs - windowMs) == Keep(arrivals, now + disorderMs - windowMs)
  {
    var n := |arrivals|;
    assert arrivals[..n] == arrivals;
    WindowIsSurvivors(windowMs, arrivals, n);
    RecentArrivalsSurvive(windowMs, disorderMs, arrivals, n);
  }

  /** With arrivals in order of time the window is exactly the inclusive lookback. */
  lemma OrderedWindowIsLookback(windowMs: int, arrivals: seq<Entry>)
    requires arrivals != [] && Disorder(0, arrivals) && windowMs >= 0
    ensures Window(windowMs, arrivals) == Keep(arrivals, arrivals[|arrivals| - 1].time - windowMs)
  {
    WindowNearLookback(windowMs, 0, arrivals);
  }

  /** Without pruning, an element emits the sum over its key's window. */
  lemma EmittedIsWindow(windowMs: int, events: seq<Event>, e: Event)
    requires e.Element?
    ensures Emitted(windowMs, Run(windowMs, false, events), e)
         == [Emission(e.key, Total(Window(windowMs, Arrivals(events + [e], e.key))))]
  {
    var all := events + [e];
    assert all[..|all| - 1] == events;
    KeyedRunIsWindow(windowMs, all, e.key);
  }

  lemma OnTimePrefix(events: seq<Event>, e: Event)
    requires OnTime(events + [e])
    ensures OnTime(events)
  {
    var all := events + [e];
    forall i | 0 <= i < |events| && events[i].Element?
      ensures var w := WatermarkAfter(events[..i]); w.Some? ==> events[i].time >= w.value
    {
      assert events[..i] == all[..i];
      assert all[i] == events[i];
    }
  }

  /**
   The emission for the last element of a run, with timers firing as they please: the element
   adds exactly its own order value and margin, and one to the count, to the totals over the
   inclusive lookback through all earlier trades of the same key.
   */
  lemma EmissionIsLookback(windowMs: int, events: seq<Event>, e: Event)
    requires e.Element? && windowMs >= 0
    requires OnTime(events + [e]) && Disorder(0, Arrivals(events + [e], e.key))
    ensures var earlier := Total(Keep(Arrivals(events, e.key), e.time - windowMs));
            var own := OperatorEntry(e.time, e.facts);
            Output(windowMs, true, events + [e])
            == Output(windowMs, true, events)
               + [Emission(e.key, Aggregate(earlier.orderValue + own.orderValue, earlier.margin + own.margin, earlier.count + 1))]
  {
    hide OnTime, Run, Output, Emitted, Window, Total, Keep, OperatorEntry, Arrivals;
    OnTimePrefix(events, e);
    PruningUnobservable(windowMs, events + [e]);
    PruningUnobservable(windowMs, events);
    OutputExtends(windowMs, false, events, e);
    EmittedIsWindow(windowMs, events, e);
    LastArrival(events, e);
    OrderedWindowIsLookback(windowMs, Arrivals(events + [e], e.key));
    LookbackSplits(windowMs, events, e);
  }

  lemma ArrivalsExtend(events: seq<Event>, e: Event)
    requires e.Element?
    ensures Arrivals(events + [e], e.key) == Arrivals(events, e.key) + [OperatorEntry(e.time, e.facts)]
  {
    hide OperatorEntry;
    var all := events + [e];
    assert all[..|all| - 1] == events;
  }

  /** The lookback of an element is that through the earlier trades, and the element itself. */
  lemma LookbackSplits(windowMs: int, events: seq<Event>, e: Event)
    requires e.Element? && windowMs >= 0
    ensures var earlier := Keep(Arrivals(events, e.key), e.time - windowMs);
            var own := OperatorEntry(e.time, e.facts);
            Total(Keep(Arrivals(events + [e], e.key), e.time - windowMs))
            == Aggregate(Total(earlier).orderValue + own.orderValue, Total(earlier).margin + own.margin, Total(earlier).count + 1)
  {
    hide Arrivals, Keep, Total, OperatorEntry;
    var own := OperatorEntry(e.time, e.facts);
    ArrivalsExtend(events, e);
    EntryTime(e.time, e.facts);
    KeepLast(Arrivals(events, e.key), own, true, e.time - windowMs);
    TotalIsSum(Keep(Arrivals(events, e.key), e.time - windowMs), [own], own);
  }

  lemma LastArrival(events: seq<Event>, e: Event)
    requires e.Element?
    ensures var arrivals := Arrivals(events + [e], e.key);
            arrivals != [] && arrivals[|arrivals| - 1].time == e.time
  {
  }

  // ----- The in-memory tracker -----

  /** One call of the tracker, with the clock reading it takes. */
  datatype Call = Call(key: Key, now: int, facts: Facts)

  function TrackerHeld(windows: map<Key, seq<Entry>>, key: Key): seq<Entry> {
    if key in windows then windows[key] else []
  }

  function Track(windowMs: int, windows: map<Key, seq<Entry>>, call: Call): map<Key, seq<Entry>> {
    windows[call.key := Slide(windowMs, TrackerHeld(windows, call.key), TrackerEntry(call.now, call.facts))]
  }

  class SlidingWindowTracker {
    const windowMs: int
    var windows: map<Key, seq<Entry>>

    constructor (windowHours: int)
      ensures windowMs == windowHours * 3600 * 1000
      ensures windows == map[]
    {
      windowMs := windowHours * 3600 * 1000;
      windows := map[];
    }

    method AddTradeAndAggregate(brokerId: string, clientCode: string, facts: Facts, now: int) returns (a: Aggregate)
      modifies this
      ensures var call := Call(MakeKey(brokerId, clientCode), now, facts);
              && windows == Track(windowMs, old(windows), call)
              && a == Total(windows[call.key])
    {
      var key := MakeKey(brokerId, clientCode);
      var entry := TrackerEntry(now, facts);
      if key !in windows {
        windows := windows[key := []];
      }
      windows := windows[key := Keep(windows[key], now - windowMs)];
      windows := windows[key := windows[key] + [entry]];
      assert windows == old(windows)[key := Slide(windowMs, TrackerHeld(old(windows), key), entry)];
      a := Sum(windows[key]);
    }
  }

  function TrackerRun(windowMs: int, calls: seq<Call>): map<Key, seq<Entry>> {
    if calls == [] then map[]
    else Track(windowMs, TrackerRun(windowMs, calls[..|calls| - 1]), calls[|calls| - 1])
  }

  function TrackerOutput(windowMs: int, calls: seq<Call>): seq<Emission> {
    if calls == [] then []
    else
      var call := calls[|calls| - 1];
      TrackerOutput(windowMs, calls[..|calls| - 1])
      + [Emission(call.key, Total(TrackerRun(windowMs, calls)[call.key]))]
  }

  /** The calls as the operator would see them: no watermark and no timer in between. */
  function AsElements(calls: seq<Call>): seq<Event> {
    if calls == [] then []
    else
      var call := calls[|calls| - 1];
      AsElements(calls[..|calls| - 1]) + [Element(call.key, call.now, call.facts)]
  }

  /** The two read a trade alike exactly when its facts leave no default that matters. */
  predicate ReadAlike(facts: Facts) {
    facts.orderValue.Some? && (facts.upfrontPct.Some? || facts.orderValue.value == 0.0)
  }

  lemma ReadAlikeExactly(time: int, facts: Facts)
    ensures TrackerEntry(time, facts) == OperatorEntry(time, facts) <==> ReadAlike(facts)
  {
  }

  lemma TrackMatches(windowMs: int, windows: map<Key, seq<Entry>>, s: State, call: Call)
    requires forall k :: TrackerHeld(windows, k) == Held(s, k)
    requires TrackerEntry(call.now, call.facts) == OperatorEntry(call.now, call.facts)
    ensures var e := Element(call.key, call.now, call.facts);
            && (forall k :: TrackerHeld(Track(windowMs, windows, call), k) == Held(Step(windowMs, false, s, e), k))
            && [Emission(call.key, Total(Track(windowMs, windows, call)[call.key]))] == Emitted(windowMs, s, e)
  {
    hide Keep, Total, Slide, OperatorEntry, TrackerEntry;
    var e := Element(call.key, call.now, call.facts);
    forall k
      ensures TrackerHeld(Track(windowMs, windows, call), k) == Held(Step(windowMs, false, s, e), k)
    {
      assert TrackerHeld(windows, k) == Held(s, k);
    }
    assert TrackerHeld(windows, call.key) == Held(s, call.key);
  }

  lemma {:induction false} AlikeRunsMatch(windowMs: int, calls: seq<Call>)
    requires forall i :: 0 <= i < |calls| ==> ReadAlike(calls[i].facts)
    ensures TrackerOutput(windowMs, calls) == Output(windowMs, false, AsElements(calls))
    ensures forall k :: TrackerHeld(TrackerRun(windowMs, calls), k) == Held(Run(windowMs, false, AsElements(calls)), k)
  {
    hide Keep, Total, Slide, OperatorEntry, TrackerEntry, ReadAlike;
    if calls != [] {
      var before, call := calls[..|calls| - 1], calls[|calls| - 1];
      AlikeRunsMatch(windowMs, before);
      ReadAlikeExactly(call.now, call.facts);
      var events := AsElements(calls);
      assert events[..|events| - 1] == AsElements(before);
      TrackMatches(windowMs, TrackerRun(windowMs, before), Run(windowMs, false, AsElements(before)), call);
    }
  }

  /** After equal windows a trade read differently is summed differently. */
  lemma DifferentEntryShows(windowMs: int, entries: seq<Entry>, x: Entry, y: Entry)
    requires x.time == y.time && Total(Slide(windowMs, entries, x)) == Total(Slide(windowMs, entries, y))
    ensures x == y
  {
    hide Keep;
    var kept := Keep(entries, x.time - windowMs);
    assert (kept + [x])[..|kept|] == kept && (kept + [y])[..|kept|] == kept;
  }

  lemma OutputsUnfold(windowMs: int, before: seq<Call>, call: Call)
    ensures var calls, e := before + [call], Element(call.key, call.now, call.facts);
            && TrackerOutput(windowMs, calls)
               == TrackerOutput(windowMs, before)
                  + [Emission(call.key, Total(Track(windowMs, TrackerRun(windowMs, before), call)[call.key]))]
            && Output(windowMs, false, AsElements(calls))
               == Output(windowMs, false, AsElements(before)) + Emitted(windowMs, Run(windowMs, false, AsElements(before)), e)
  {
    hide Total, Slide, OperatorEntry, TrackerEntry;
    var calls := before + [call];
    assert calls[..|calls| - 1] == before;
    OutputExtends(windowMs, false, AsElements(before), Element(call.key, call.now, call.facts));
  }

  lemma {:induction false} EqualOutputsReadAlike(windowMs: int, calls: seq<Call>)
    requires TrackerOutput(windowMs, calls) == Output(windowMs, false, AsElements(calls))
    ensures forall i :: 0 <= i < |calls| ==> ReadAlike(calls[i].facts)
  {
    if calls != [] {
      hide TrackerOutput, Output, Run, TrackerRun, AsElements, Track, Total, Slide, OperatorEntry, ReadAlike;
      var before, call := calls[..|calls| - 1], calls[|calls| - 1];
      assert calls == before + [call];
      OutputsUnfold(windowMs, before, call);
      var s, windows := Run(windowMs, false, AsElements(before)), TrackerRun(windowMs, before);
      var e := Element(call.key, call.now, call.facts);
      EqualLasts(TrackerOutput(windowMs, before), Emission(call.key, Total(Track(windowMs, windows, call)[call.key])),
                 Output(windowMs, false, AsElements(before)), Emitted(windowMs, s, e)[0]);
      EqualOutputsReadAlike(windowMs, before);
      AlikeRunsMatch(windowMs, before);
      LastReadAlike(windowMs, windows, s, call);
    }
  }

  /**
   Whatever clock and keys, the tracker gives the results of the operator without timers exactly
   when every trade is read alike: the first one that is not shows in its own result.
   */
  lemma TrackerIsOperator(windowMs: int, calls: seq<Call>)
    ensures TrackerOutput(windowMs, calls) == Output(windowMs, false, AsElements(calls))
       <==> forall i :: 0 <= i < |calls| ==> ReadAlike(calls[i].facts)
  {
    hide TrackerOutput, Output, AsElements, ReadAlike;
    if forall i :: 0 <= i < |calls| ==> ReadAlike(calls[i].facts) {
      AlikeRunsMatch(windowMs, calls);
    } else if TrackerOutput(windowMs, calls) == Output(windowMs, false, AsElements(calls)) {
      EqualOutputsReadAlike(windowMs, calls);
    }
  }

  lemma EqualLasts(a: seq<Emission>, x: Emission, b: seq<Emission>, y: Emission)
    requires a + [x] == b + [y]
    ensures a == b && x == y
  {
    assert a == (a + [x])[..|a|] && b == (b + [y])[..|b|];
    assert x == (a + [x])[|a|] && y == (b + [y])[|b|];
  }

  lemma LastReadAlike(windowMs: int, windows: map<Key, seq<Entry>>, s: State, call: Call)
    requires TrackerHeld(windows, call.key) == Held(s, call.key)
    requires [Emission(call.key, Total(Track(windowMs, windows, call)[call.key]))]
          == Emitted(windowMs, s, Element(call.key, call.now, call.facts))
    ensures ReadAlike(call.facts)
  {
    DifferentEntryShows(windowMs, Held(s, call.key), TrackerEntry(call.now, call.facts), OperatorEntry(call.now, call.facts));
    ReadAlikeExactly(call.now, call.facts);
  }

  /** Keys are told apart as long as no broker id contains the separator. */
  lemma {:induction false} KeysAreDistinct(b1: string, c1: string, b2: string, c2: string)
    requires ':' !in b1 && ':' !in b2
    requires MakeKey(b1, c1) == MakeKey(b2, c2)
    ensures b1 == b2 && c1 == c2
  {
    var k1, k2 := MakeKey(b1, c1), MakeKey(b2, c2);
    assert k1[|b1|] == ':' && k2[|b2|] == ':';
    assert forall i :: 0 <= i < |b1| ==> k1[i] == b1[i];
    assert forall i :: 0 <= i < |b2| ==> k2[i] == b2[i];
    assert k1[..|b1|] == b1 && k2[..|b2|] == b2;
    assert k1[|b1| + 1..] == c1 && k2[|b2| + 1..] == c2;
  }
}
