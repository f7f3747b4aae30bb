/**
 The incremental export of the ledger into write-once storage, as a machine whose steps are
 the statements of an export run. Any number of runs may overlap, under any exporter names,
 while the ledger grows; a run may stop after any statement. A database transaction has no
 visible effect before its commit, so updating the recorded position is one step.
 */
module LedgerExport {
  import opened Prelude
  import opened LedgerChain

  /** Where a run stands, with what it has read so far. */
  datatype Phase =
    | Begun
    | HasPosition(lastSeq: int)
    | HasRows(lastSeq: int, rows: seq<Row>)
    | EntriesStored(lastSeq: int, rows: seq<Row>)
    | ManifestStored(lastSeq: int, rows: seq<Row>)
    | Finished

  datatype Run = Run(exporterId: string, phase: Phase)

  /** An entries object is keyed by its first and last sequence number. */
  datatype EntriesKey = EntriesKey(start: int, end: int)

  /** `manifests` are all versions ever put, in that order; write-once storage keeps a version that a later one shadows. */
  datatype State = State(
    ledger: seq<Row>,
    positions: map<string, int>,
    entries: map<EntriesKey, seq<Row>>,
    manifests: seq<Manifest>,
    runs: map<nat, Run>)

  datatype Event =
    | AppendRow(payload: Payload, now: Instant)
    | Begin(id: nat, exporterId: string)
    | ReadPosition(id: nat)
    | SelectRows(id: nat)
    | PutEntries(id: nat)
    | PutManifest(id: nat)
    | Commit(id: nat)
    | Crash(id: nat)

  const INITIAL := State([], map[], map[], [], map[])

  function Position(s: State, exporterId: string): (r: int) {
    if exporterId in s.positions then s.positions[exporterId] else -1
  }

  /** Rows with `sequence_num > lastSeq`, ascending. */
  function RowsAfter(ledger: seq<Row>, lastSeq: int): (r: seq<Row>) {
    if ledger == [] then []
    else if ledger[0].sequenceNum > lastSeq then [ledger[0]] + RowsAfter(ledger[1..], lastSeq)
    else RowsAfter(ledger[1..], lastSeq)
  }

  function KeyOf(rows: seq<Row>): EntriesKey
    requires rows != []
  {
    EntriesKey(rows[0].sequenceNum, rows[|rows| - 1].sequenceNum)
  }

  function ManifestOf(exporterId: string, rows: seq<Row>): Manifest
    requires rows != []
  {
    var last := rows[|rows| - 1];
    Manifest(exporterId, rows[0].sequenceNum, last.sequenceNum, last.currentHash, |rows|)
  }

  function WithPhase(s: State, id: nat, phase: Phase): State
    requires id in s.runs
  {
    s.(runs := s.runs[id := s.runs[id].(phase := phase)])
  }

  /** One step of a run; a statement that is not the run's next one does nothing. */
  function RunStep(s: State, e: Event): State
    requires !e.AppendRow? && !e.Begin?
    requires e.id in s.runs
  {
    var run := s.runs[e.id];
    match e
    case ReadPosition(id) =>
      if run.phase.Begun? then WithPhase(s, id, HasPosition(Position(s, run.exporterId))) else s
    case SelectRows(id) =>
      if !run.phase.HasPosition? then s
      else
        var rows := RowsAfter(s.ledger, run.phase.lastSeq);
        WithPhase(s, id, if rows == [] then Finished else HasRows(run.phase.lastSeq, rows))
    case PutEntries(id) =>
      if !(run.phase.HasRows? && run.phase.rows != []) then s
      else WithPhase(s.(entries := s.entries[KeyOf(run.phase.rows) := run.phase.rows]), id,
                     EntriesStored(run.phase.lastSeq, run.phase.rows))
    case PutManifest(id) =>
      if !(run.phase.EntriesStored? && run.phase.rows != []) then s
      else WithPhase(s.(manifests := s.manifests + [ManifestOf(run.exporterId, run.phase.rows)]), id,
                     ManifestStored(run.phase.lastSeq, run.phase.rows))
    case Commit(id) =>
      if !(run.phase.ManifestStored? && run.phase.rows != []) then s
      else
        var endSeq := run.phase.rows[|run.phase.rows| - 1].sequenceNum;
        // UPDATE changes nothing without a row, INSERT fails on an existing one and rolls back.
        if (run.phase.lastSeq >= 0) == (run.exporterId in s.positions)
        then WithPhase(s.(positions := s.positions[run.exporterId := endSeq]), id, Finished)
        else WithPhase(s, id, Finished)
    case Crash(id) => WithPhase(s, id, Finished)
  }

  function Step(s: State, e: Event): State {
    match e
    case AppendRow(payload, now) => s.(ledger := Append(s.ledger, payload, now))
    case Begin(id, exporterId) =>
      if id in s.runs then s else s.(runs := s.runs[id := Run(exporterId, Begun)])
    case _ => if e.id in s.runs then RunStep(s, e) else s
  }

  /** The state after a history of events, in any interleaving. */
  function After(events: seq<Event>): State {
    if events == [] then INITIAL else Step(After(events[..|events| - 1]), events[|events| - 1])
  }

  // ----- What every step keeps -----

  /** Row `q` of the ledger sits, unchanged, at its place in some stored object. */
  ghost predicate Stored(s: State, q: int) {
    exists key :: key in s.entries && key.start <= q <= key.end
                  && q - key.start < |s.entries[key]| && 0 <= q < |s.ledger|
                  && s.entries[key][q - key.start] == s.ledger[q]
  }

  ghost predicate StoredThrough(s: State, p: int) {
    p < |s.ledger| && forall q :: 0 <= q <= p ==> Stored(s, q)
  }

  /** An object is the slice of the ledger that its key announces. */
  ghost predicate ExactSlice(ledger: seq<Row>, key: EntriesKey, rows: seq<Row>) {
    0 <= key.start <= key.end < |ledger| && rows == ledger[key.start..key.end + 1]
  }

  /** A manifest names a stored object and carries the ledger's own hash of its last row. */
  ghost predicate TrueManifest(s: State, m: Manifest) {
    var key := EntriesKey(m.startSequenceNum, m.lastSequenceNum);
    && key in s.entries
    && m.rowCount == |s.entries[key]|
    && 0 <= m.lastSequenceNum < |s.ledger|
    && m.lastCurrentHash == s.ledger[m.lastSequenceNum].currentHash
    && StoredThrough(s, m.lastSequenceNum)
  }

  /** A run works on the rows right after a position that is already safe. */
  ghost predicate SoundRun(s: State, run: Run) {
    match run.phase
    case Begun => true
    case Finished => true
    case HasPosition(lastSeq) => lastSeq >= -1 && StoredThrough(s, lastSeq)
    case HasRows(lastSeq, rows) => SoundRows(s, lastSeq, rows)
    case EntriesStored(lastSeq, rows) =>
      SoundRows(s, lastSeq, rows) && KeyOf(rows) in s.entries && StoredThrough(s, rows[|rows| - 1].sequenceNum)
    case ManifestStored(lastSeq, rows) =>
      SoundRows(s, lastSeq, rows) && ManifestOf(run.exporterId, rows) in s.manifests
      && StoredThrough(s, rows[|rows| - 1].sequenceNum)
  }

  ghost predicate SoundRows(s: State, lastSeq: int, rows: seq<Row>) {
    && lastSeq >= -1 && StoredThrough(s, lastSeq)
    && rows != []
    && rows[0].sequenceNum == lastSeq + 1
    && ExactSlice(s.ledger, KeyOf(rows), rows)
  }

  /** Everything up to a recorded position is stored, and one of the exporter's manifests is for that position. */
  ghost predicate SoundPosition(s: State, exporterId: string, p: int) {
    && p >= 0 && StoredThrough(s, p)
    && exists m :: m in s.manifests && m.lastSequenceNum == p && m.exporterId == exporterId
  }

  ghost predicate Invariant(s: State) {
    && ValidLedger(s.ledger)
    && (forall key :: key in s.entries ==> ExactSlice(s.ledger, key, s.entries[key]))
    && (forall m :: m in s.manifests ==> TrueManifest(s, m))
    && (forall x :: x in s.positions ==> SoundPosition(s, x, s.positions[x]))
    && (forall id :: id in s.runs ==> SoundRun(s, s.runs[id]))
  }

  /** `t` has everything `s` has: ledger, objects and manifests only grow. */
  ghost predicate Grows(s: State, t: State) {
    && s.ledger <= t.ledger
    && (forall key :: key in s.entries ==> key in t.entries && t.entries[key] == s.entries[key])
    && s.manifests <= t.manifests
  }

  lemma StoredGrows(s: State, t: State, p: int)
    requires Grows(s, t) && StoredThrough(s, p)
    ensures StoredThrough(t, p)
  {
    forall q | 0 <= q <= p
      ensures Stored(t, q)
    {
      assert Stored(s, q);
      var key :| key in s.entries && key.start <= q <= key.end
                 && q - key.start < |s.entries[key]| && 0 <= q < |s.ledger|
                 && s.entries[key][q - key.start] == s.ledger[q];
      assert key in t.entries;
    }
  }

  lemma SoundRunGrows(s: State, t: State, run: Run)
    requires Grows(s, t) && SoundRun(s, run)
    ensures SoundRun(t, run)
  {
    hide StoredThrough;
    match run.phase
    case Begun =>
    case Finished =>
    case HasPosition(lastSeq) => StoredGrows(s, t, lastSeq);
    case HasRows(lastSeq, rows) => StoredGrows(s, t, lastSeq);
    case EntriesStored(lastSeq, rows) =>
      StoredGrows(s, t, lastSeq);
      StoredGrows(s, t, rows[|rows| - 1].sequenceNum);
    case ManifestStored(lastSeq, rows) =>
      StoredGrows(s, t, lastSeq);
      StoredGrows(s, t, rows[|rows| - 1].sequenceNum);
  }

  /** Whatever changed but positions and one run, the rest of the invariant carries over. */
  lemma InvariantGrows(s: State, t: State)
    requires Invariant(s) && Grows(s, t) && ValidLedger(t.ledger)
    ensures forall m :: m in s.manifests ==> TrueManifest(t, m)
    ensures forall x :: x in s.positions ==> SoundPosition(t, x, s.positions[x])
    ensures forall id :: id in s.runs ==> SoundRun(t, s.runs[id])
    ensures forall key :: key in s.entries ==> ExactSlice(t.ledger, key, t.entries[key])
  {
    forall m | m in s.manifests
      ensures TrueManifest(t, m)
    {
      StoredGrows(s, t, m.lastSequenceNum);
    }
    forall x | x in s.positions
      ensures SoundPosition(t, x, s.positions[x])
    {
      StoredGrows(s, t, s.positions[x]);
      assert SoundPosition(s, x, s.positions[x]);
    }
    forall id | id in s.runs
      ensures SoundRun(t, s.runs[id])
    {
      SoundRunGrows(s, t, s.runs[id]);
    }
  }

  lemma SequenceIsIndex(ledger: seq<Row>, i: nat)
    requires ValidLedger(ledger) && i < |ledger|
    ensures ledger[i].sequenceNum == i
  {
    assert Linked(ledger, i);
  }

  /** The query returns the slice of the ledger above the position. */
  lemma {:induction false} RowsAfterIsSuffix(ledger: seq<Row>, from: nat, lastSeq: int)
    requires ValidLedger(ledger) && -1 <= lastSeq < |ledger| && from <= |ledger|
    ensures RowsAfter(ledger[from..], lastSeq) == ledger[(if from <= lastSeq then lastSeq + 1 else from)..]
    decreases |ledger| - from
  {
    if from < |ledger| {
      SequenceIsIndex(ledger, from);
      assert ledger[from..][1..] == ledger[from + 1..];
      RowsAfterIsSuffix(ledger, from + 1, lastSeq);
    }
  }

  lemma SelectedRowsAreSound(s: State, lastSeq: int)
    requires Invariant(s) && lastSeq >= -1 && StoredThrough(s, lastSeq)
    ensures var rows := RowsAfter(s.ledger, lastSeq); rows == [] || SoundRows(s, lastSeq, rows)
  {
    assert s.ledger[0..] == s.ledger;
    RowsAfterIsSuffix(s.ledger, 0, lastSeq);
    if lastSeq + 1 < |s.ledger| {
      SequenceIsIndex(s.ledger, lastSeq + 1);
      SequenceIsIndex(s.ledger, |s.ledger| - 1);
    }
  }

  /** Storing the slice after a safe position makes its last row safe. */
  lemma SliceExtendsStored(s: State, t: State, lastSeq: int, rows: seq<Row>)
    requires SoundRows(s, lastSeq, rows) && Grows(s, t)
    requires KeyOf(rows) in t.entries && t.entries[KeyOf(rows)] == rows
    ensures StoredThrough(t, rows[|rows| - 1].sequenceNum)
  {
    StoredGrows(s, t, lastSeq);
    var key := KeyOf(rows);
    forall q | lastSeq < q <= key.end
      ensures Stored(t, q)
    {
      assert t.entries[key][q - key.start] == t.ledger[q];
    }
  }

  lemma PutEntriesKeeps(s: State, id: nat)
    requires Invariant(s) && id in s.runs && s.runs[id].phase.HasRows?
    ensures Invariant(Step(s, PutEntries(id)))
  {
    hide StoredThrough, ValidLedger, TrueManifest;
    var run := s.runs[id];
    var rows := run.phase.rows;
    var key := KeyOf(rows);
    var t := Step(s, PutEntries(id));
    assert key in s.entries ==> ExactSlice(s.ledger, key, s.entries[key]);
    InvariantGrows(s, t);
    SliceExtendsStored(s, t, run.phase.lastSeq, rows);
    StoredGrows(s, t, run.phase.lastSeq);
    assert SoundRun(t, t.runs[id]);
  }

  lemma PutManifestKeeps(s: State, id: nat)
    requires Invariant(s) && id in s.runs && s.runs[id].phase.EntriesStored?
    ensures Invariant(Step(s, PutManifest(id)))
  {
    hide StoredThrough, ValidLedger;
    var run := s.runs[id];
    var rows := run.phase.rows;
    var t := Step(s, PutManifest(id));
    InvariantGrows(s, t);
    StoredGrows(s, t, run.phase.lastSeq);
    StoredGrows(s, t, rows[|rows| - 1].sequenceNum);
    var m := ManifestOf(run.exporterId, rows);
    assert ExactSlice(s.ledger, KeyOf(rows), s.entries[KeyOf(rows)]);
    assert TrueManifest(t, m);
    assert m == t.manifests[|t.manifests| - 1];
    assert SoundRun(t, t.runs[id]);
  }

  lemma ManifestOfRun(s: State, run: Run)
    requires SoundRun(s, run) && run.phase.ManifestStored?
    ensures run.phase.rows != [] && ManifestOf(run.exporterId, run.phase.rows) in s.manifests
    ensures run.phase.rows[|run.phase.rows| - 1].sequenceNum >= 0
    ensures StoredThrough(s, run.phase.rows[|run.phase.rows| - 1].sequenceNum)
  {
  }

  lemma NewPosition(s: State, t: State, m: Manifest)
    requires Grows(s, t) && m in t.manifests && m.lastSequenceNum >= 0 && StoredThrough(s, m.lastSequenceNum)
    ensures SoundPosition(t, m.exporterId, m.lastSequenceNum)
  {
    hide StoredThrough;
    StoredGrows(s, t, m.lastSequenceNum);
  }

  lemma FinishedIsSound(s: State, run: Run)
    requires run.phase.Finished?
    ensures SoundRun(s, run)
  {
  }

  lemma CommitKeeps(s: State, id: nat)
    requires Invariant(s) && id in s.runs && s.runs[id].phase.ManifestStored?
    ensures Invariant(Step(s, Commit(id)))
  {
    hide StoredThrough, ExactSlice, ValidLedger, SoundRun, SoundPosition, TrueManifest;
    var run := s.runs[id];
    ManifestOfRun(s, run);
    var t := Step(s, Commit(id));
    InvariantGrows(s, t);
    NewPosition(s, t, ManifestOf(run.exporterId, run.phase.rows));
    FinishedIsSound(t, t.runs[id]);
  }

  /** A step that changes nothing but the phase of one run. */
  lemma PhaseStepKeeps(s: State, id: nat, phase: Phase)
    requires Invariant(s) && id in s.runs
    requires SoundRun(s, s.runs[id].(phase := phase))
    ensures Invariant(WithPhase(s, id, phase))
  {
    var t := WithPhase(s, id, phase);
    InvariantGrows(s, t);
    SoundRunGrows(s, t, t.runs[id]);
  }

  lemma ReadingKeeps(s: State, e: Event)
    requires Invariant(s)
    requires e.ReadPosition? || e.SelectRows? || e.Crash?
    ensures Invariant(Step(s, e))
  {
    if e.id in s.runs {
      var run := s.runs[e.id];
      match e
      case ReadPosition(id) =>
        if run.phase.Begun? { PhaseStepKeeps(s, id, HasPosition(Position(s, run.exporterId))); }
      case SelectRows(id) =>
        if run.phase.HasPosition? {
          SelectedRowsAreSound(s, run.phase.lastSeq);
          var rows := RowsAfter(s.ledger, run.phase.lastSeq);
          PhaseStepKeeps(s, id, if rows == [] then Finished else HasRows(run.phase.lastSeq, rows));
        }
      case Crash(id) => PhaseStepKeeps(s, id, Finished);
    }
  }

  lemma AppendOrBeginKeeps(s: State, e: Event)
    requires Invariant(s)
    requires e.AppendRow? || e.Begin?
    ensures Invariant(Step(s, e))
  {
    if e.AppendRow? {
      AppendKeepsLedger(s.ledger, e.payload, e.now);
    }
    InvariantGrows(s, Step(s, e));
  }

  /** No step takes back a row, an object or a manifest; an object put again under its key is the same object. */
  lemma StepGrows(s: State, e: Event)
    requires Invariant(s)
    ensures Grows(s, Step(s, e))
  {
    if e.PutEntries? && e.id in s.runs && s.runs[e.id].phase.HasRows? {
      var key := KeyOf(s.runs[e.id].phase.rows);
      assert SoundRun(s, s.runs[e.id]);
      assert key in s.entries ==> ExactSlice(s.ledger, key, s.entries[key]);
    }
  }

  lemma StepKeepsInvariant(s: State, e: Event)
    requires Invariant(s)
    ensures Invariant(Step(s, e))
  {
    match e
    case AppendRow(_, _) => AppendOrBeginKeeps(s, e);
    case Begin(_, _) => AppendOrBeginKeeps(s, e);
    case PutEntries(id) =>
      if id in s.runs && s.runs[id].phase.HasRows? { PutEntriesKeeps(s, id); }
    case PutManifest(id) =>
      if id in s.runs && s.runs[id].phase.EntriesStored? { PutManifestKeeps(s, id); }
    case Commit(id) =>
      if id in s.runs && s.runs[id].phase.ManifestStored? { CommitKeeps(s, id); }
    case ReadPosition(_) => ReadingKeeps(s, e);
    case SelectRows(_) => ReadingKeeps(s, e);
    case Crash(_) => ReadingKeeps(s, e);
  }

  /** Over every interleaving of appends, overlapping runs and crashes. */
  lemma {:induction false} EveryHistorySafe(events: seq<Event>)
    ensures Invariant(After(events))
  {
    if events != [] {
      EveryHistorySafe(events[..|events| - 1]);
      StepKeepsInvariant(After(events[..|events| - 1]), events[|events| - 1]);
    }
  }

  /** A finished run does nothing more. */
  lemma FinishedStep(s: State, e: Event, id: nat)
    requires id in s.runs && s.runs[id].phase.Finished?
    ensures var t := Step(s, e);
            && id in t.runs && t.runs[id].phase.Finished?
            && (!e.AppendRow? && e.id == id ==> t == s)
  {
    hide RowsAfter, Append;
    if !e.AppendRow? && e.id == id && e.Crash? {
      assert s.runs[id := s.runs[id].(phase := Finished)] == s.runs;
    }
  }

  /** A crash ends its run for good: whatever statement is tried for it later, nothing is written. */
  lemma {:induction false} CrashedRunWritesNothing(events: seq<Event>, n: nat, id: nat, e: Event)
    requires n < |events| && events[n] == Crash(id) && id in After(events[..n]).runs
    requires !e.AppendRow? && e.id == id
    ensures id in After(events).runs && After(events).runs[id].phase.Finished?
    ensures Step(After(events), e) == After(events)
  {
    var before, last := events[..|events| - 1], events[|events| - 1];
    if n == |events| - 1 {
    } else {
      assert before[..n] == events[..n];
      CrashedRunWritesNothing(before, n, id, e);
      FinishedStep(After(before), last, id);
    }
    hide Step;
    FinishedStep(After(events), e, id);
  }

  /** Nothing stored is ever lost or changed, however the history goes on. */
  lemma {:induction false} HistoryOnlyGrows(events: seq<Event>, n: nat)
    requires n <= |events|
    ensures Grows(After(events[..n]), After(events))
  {
    if n == |events| {
      assert events[..n] == events;
    } else {
      var before := events[..|events| - 1];
      HistoryOnlyGrows(before, n);
      assert before[..n] == events[..n];
      EveryHistorySafe(before);
      StepGrows(After(before), events[|events| - 1]);
    }
  }

  /**
   Whatever checkpoint of whatever history the validator is given, its verdict on a table is
   "valid" exactly when the table is a consistent chain with the ledger's rows up to that
   checkpoint, and all those rows can be read back from the stored objects.
   */
  lemma ExportedCheckpointVerdict(events: seq<Event>, m: Manifest, table: seq<Row>)
    requires m in After(events).manifests
    ensures var s := After(events);
            && StoredThrough(s, m.lastSequenceNum)
            && m.lastSequenceNum >= 0
            && (ValidatePostFailover(table, Found(m)).valid
                <==> ValidChain(table) && AgreeThrough(table, s.ledger, m.lastSequenceNum))
  {
    EveryHistorySafe(events);
    CheckpointVerdict(After(events).ledger, m, table);
  }

  // ----- The checkpoint modified last -----

  /** The manifest the validator picks: the one modified last. */
  function LatestCheckpoint(s: State): Checkpoint {
    if s.manifests == [] then NoManifest else Found(s.manifests[|s.manifests| - 1])
  }

  /** The three writes that end a run which has selected its rows. */
  function FinishRun(s: State, id: nat): State {
    Step(Step(Step(s, PutEntries(id)), PutManifest(id)), Commit(id))
  }

  /** The three writes; the position stays when the exporter's row has come or gone since the run read it. */
  lemma FinishRunWrites(s: State, id: nat)
    requires id in s.runs && s.runs[id].phase.HasRows? && s.runs[id].phase.rows != []
    ensures var x, rows := s.runs[id].exporterId, s.runs[id].phase.rows;
            var m := ManifestOf(x, rows);
            FinishRun(s, id) == State(s.ledger,
                                      if (s.runs[id].phase.lastSeq >= 0) == (x in s.positions)
                                      then s.positions[x := m.lastSequenceNum] else s.positions,
                                      s.entries[KeyOf(rows) := rows],
                                      s.manifests + [m], s.runs[id := s.runs[id].(phase := Finished)])
  {
    var s1 := Step(s, PutEntries(id));
    var s2 := Step(s1, PutManifest(id));
    var t := Step(s2, Commit(id));
    assert s1.runs == s.runs[id := s.runs[id].(phase := EntriesStored(s.runs[id].phase.lastSeq, s.runs[id].phase.rows))];
    assert s2.runs == s.runs[id := s.runs[id].(phase := ManifestStored(s.runs[id].phase.lastSeq, s.runs[id].phase.rows))];
    assert t.runs == s.runs[id := s.runs[id].(phase := Finished)];
  }

  lemma FinishedRunStays(s: State, id: nat)
    requires id in s.runs && s.runs[id].phase.Finished?
    ensures FinishRun(s, id) == s
  {
  }

  lemma FinishRunKeeps(s: State, id: nat)
    requires Invariant(s)
    ensures Invariant(FinishRun(s, id)) && Grows(s, FinishRun(s, id))
  {
    hide Invariant, Step;
    var s1 := Step(s, PutEntries(id));
    var s2 := Step(s1, PutManifest(id));
    StepKeepsInvariant(s, PutEntries(id));
    StepKeepsInvariant(s1, PutManifest(id));
    StepKeepsInvariant(s2, Commit(id));
    StepGrows(s, PutEntries(id));
    StepGrows(s1, PutManifest(id));
    StepGrows(s2, Commit(id));
  }

  // ----- When the checkpoint modified last is good enough -----

  /** No stored checkpoint is above the one modified last. */
  ghost predicate LatestIsHighest(s: State) {
    forall m :: m in s.manifests ==> m.lastSequenceNum <= s.manifests[|s.manifests| - 1].lastSequenceNum
  }

  /** A table that passes against the checkpoint modified last passes against every stored one. */
  ghost predicate LatestDecides(s: State) {
    forall m, table :: m in s.manifests && ValidatePostFailover(table, LatestCheckpoint(s)).valid ==>
      ValidatePostFailover(table, Found(m)).valid
  }

  lemma StoredCheckpointVerdict(s: State, m: Manifest, table: seq<Row>)
    requires Invariant(s) && m in s.manifests
    ensures 0 <= m.lastSequenceNum < |s.ledger|
    ensures ValidatePostFailover(table, Found(m)).valid
       <==> ValidChain(table) && AgreeThrough(table, s.ledger, m.lastSequenceNum)
  {
    hide ValidatePostFailover, ValidChain, StoredThrough, SoundRun, SoundPosition;
    assert TrueManifest(s, m);
    CheckpointVerdict(s.ledger, m, table);
  }

  lemma PrefixIsChain(ledger: seq<Row>, n: nat)
    requires ValidLedger(ledger) && n <= |ledger|
    ensures ValidChain(ledger[..n])
  {
    forall i | 0 <= i < n
      ensures Linked(ledger[..n], i)
    {
      assert Linked(ledger, i);
    }
  }

  /** The ledger cut off right after a lower checkpoint tells it from a higher one. */
  lemma LowerCheckpointMisses(s: State, low: Manifest, high: Manifest)
    requires Invariant(s) && low in s.manifests && high in s.manifests
    requires low.lastSequenceNum < high.lastSequenceNum
    ensures 0 <= low.lastSequenceNum < |s.ledger|
    ensures var table := s.ledger[..low.lastSequenceNum + 1];
            ValidatePostFailover(table, Found(low)).valid && !ValidatePostFailover(table, Found(high)).valid
  {
    hide ValidatePostFailover, ValidChain, TrueManifest, SoundRun, SoundPosition;
    StoredCheckpointVerdict(s, low, []);
    var table := s.ledger[..low.lastSequenceNum + 1];
    PrefixIsChain(s.ledger, low.lastSequenceNum + 1);
    StoredCheckpointVerdict(s, low, table);
    StoredCheckpointVerdict(s, high, table);
  }

  /** Comparing with the checkpoint modified last alone is as good as comparing with all of them exactly when it is the highest. */
  lemma LatestDecidesExactly(s: State)
    requires Invariant(s) && s.manifests != []
    ensures LatestDecides(s) <==> LatestIsHighest(s)
  {
    hide ValidatePostFailover, ValidChain, Invariant;
    var last := s.manifests[|s.manifests| - 1];
    if LatestIsHighest(s) {
      forall m, table | m in s.manifests && ValidatePostFailover(table, LatestCheckpoint(s)).valid
        ensures ValidatePostFailover(table, Found(m)).valid
      {
        StoredCheckpointVerdict(s, m, table);
        StoredCheckpointVerdict(s, last, table);
      }
    } else {
      var m :| m in s.manifests && m.lastSequenceNum > last.lastSequenceNum;
      LowerCheckpointMisses(s, last, m);
      var table := s.ledger[..last.lastSequenceNum + 1];
      assert ValidatePostFailover(table, LatestCheckpoint(s)).valid;
    }
  }

  /** What a run can test right before it puts its manifest: whether a stored one is above its own. */
  lemma PutManifestKeepsHighestExactly(s: State, id: nat)
    requires id in s.runs && s.runs[id].phase.EntriesStored? && s.runs[id].phase.rows != []
    ensures LatestIsHighest(Step(s, PutManifest(id)))
       <==> forall m :: m in s.manifests ==> m.lastSequenceNum <= KeyOf(s.runs[id].phase.rows).end
  {
    var own := ManifestOf(s.runs[id].exporterId, s.runs[id].phase.rows);
    var t := Step(s, PutManifest(id));
    assert t.manifests == s.manifests + [own];
    assert forall m :: m in s.manifests ==> m in t.manifests;
  }

  /** Two versions under one manifest key, or any two checkpoints of one row, decide alike. */
  lemma SameRowSameVerdict(s: State, a: Manifest, b: Manifest, table: seq<Row>)
    requires Invariant(s) && a in s.manifests && b in s.manifests && a.lastSequenceNum == b.lastSequenceNum
    ensures ValidatePostFailover(table, Found(a)) == ValidatePostFailover(table, Found(b))
  {
    hide StoredThrough, SoundRun, SoundPosition, ChainBreaks;
    assert TrueManifest(s, a) && TrueManifest(s, b);
  }

  // ----- Over whole histories -----

  /** The step selects the rows of run `id`. */
  ghost predicate Selects(s: State, e: Event, id: nat) {
    e == SelectRows(id) && id in s.runs && s.runs[id].phase.HasPosition?
  }

  /** The step stores the manifest of a run. */
  ghost predicate PutsManifest(s: State, e: Event) {
    e.PutManifest? && e.id in s.runs && s.runs[e.id].phase.EntriesStored? && s.runs[e.id].phase.rows != []
  }

  /** The length of the ledger that run `id` selected from. */
  ghost function LedgerSeen(events: seq<Event>, id: nat): int {
    if events == [] then 0
    else
      var before, e := events[..|events| - 1], events[|events| - 1];
      if Selects(After(before), e, id) then |After(before).ledger| else LedgerSeen(before, id)
  }

  /** The runs that have put a manifest, in that order. */
  ghost function Putters(events: seq<Event>): seq<nat> {
    if events == [] then []
    else
      var before, e := events[..|events| - 1], events[|events| - 1];
      Putters(before) + if PutsManifest(After(before), e) then [e.id] else []
  }

  predicate HoldsRows(phase: Phase) {
    phase.HasRows? || phase.EntriesStored? || phase.ManifestStored?
  }

  /** The rows of run `id` end where the ledger ended when it selected them. */
  ghost predicate RowsTraced(s: State, id: nat, seen: int) {
    id in s.runs && HoldsRows(s.runs[id].phase) ==>
      s.runs[id].phase.rows != [] && KeyOf(s.runs[id].phase.rows).end == seen - 1
  }

  /** A manifest was put by a run that selects no more, and is for the end of the ledger it selected from. */
  ghost predicate ManifestTraced(s: State, m: Manifest, id: nat, seen: int) {
    && id in s.runs && !s.runs[id].phase.Begun? && !s.runs[id].phase.HasPosition?
    && m.lastSequenceNum == seen - 1
  }

  ghost predicate Traced(events: seq<Event>) {
    var s, putters := After(events), Putters(events);
    && (forall id :: RowsTraced(s, id, LedgerSeen(events, id)))
    && |putters| == |s.manifests|
    && (forall k :: 0 <= k < |putters| ==> ManifestTraced(s, s.manifests[k], putters[k], LedgerSeen(events, putters[k])))
  }

  /** Rows selected from a ledger end with its last one. */
  lemma SelectedToTheEnd(s: State, e: Event, id: nat)
    requires Invariant(s) && Selects(s, e, id)
    ensures RowsTraced(Step(s, e), id, |s.ledger|)
  {
    hide RowsAfter;
    assert SoundRun(s, s.runs[id]);
    assert s.ledger[0..] == s.ledger;
    RowsAfterIsSuffix(s.ledger, 0, s.runs[id].phase.lastSeq);
    if s.ledger != [] {
      SequenceIsIndex(s.ledger, |s.ledger| - 1);
    }
  }

  /** Rows come from selecting them and nowhere else. */
  lemma RowsStay(s: State, e: Event, id: nat, seen: int)
    requires !Selects(s, e, id) && RowsTraced(s, id, seen)
    ensures RowsTraced(Step(s, e), id, seen)
  {
    hide RowsAfter, Append;
  }

  lemma ManifestStays(s: State, e: Event, m: Manifest, id: nat, seen: int)
    requires ManifestTraced(s, m, id, seen)
    ensures ManifestTraced(Step(s, e), m, id, seen) && !Selects(s, e, id)
  {
    hide RowsAfter, Append;
  }

  /** A step adds a manifest exactly when it is the run's turn to put one. */
  lemma ManifestsOfStep(s: State, e: Event)
    ensures var t := Step(s, e);
            if PutsManifest(s, e)
            then t.manifests == s.manifests + [ManifestOf(s.runs[e.id].exporterId, s.runs[e.id].phase.rows)]
                 && e.id in t.runs && t.runs[e.id].phase.ManifestStored?
            else t.manifests == s.manifests
  {
    hide RowsAfter, Append;
  }

  lemma {:induction false} EveryHistoryTraced(events: seq<Event>)
    ensures Traced(events)
  {
    if events != [] {
      var before, e := events[..|events| - 1], events[|events| - 1];
      EveryHistoryTraced(before);
      EveryHistorySafe(before);
      var s, t := After(before), After(events);
      hide Invariant, Step, RowsTraced, ManifestTraced;
      forall id
        ensures RowsTraced(t, id, LedgerSeen(events, id))
      {
        assert RowsTraced(s, id, LedgerSeen(before, id));
        if Selects(s, e, id) {
          SelectedToTheEnd(s, e, id);
        } else {
          RowsStay(s, e, id, LedgerSeen(before, id));
        }
      }
      ManifestsOfStep(s, e);
      var prior, now := Putters(before), Putters(events);
      forall k | 0 <= k < |now|
        ensures ManifestTraced(t, t.manifests[k], now[k], LedgerSeen(events, now[k]))
      {
        if k < |prior| {
          ManifestStays(s, e, s.manifests[k], prior[k], LedgerSeen(before, prior[k]));
        } else {
          NewManifestTraced(s, e, LedgerSeen(before, e.id));
        }
      }
    }
  }

  lemma NewManifestTraced(s: State, e: Event, seen: int)
    requires PutsManifest(s, e) && RowsTraced(s, e.id, seen)
    ensures ManifestTraced(Step(s, e), ManifestOf(s.runs[e.id].exporterId, s.runs[e.id].phase.rows), e.id, seen)
  {
  }

  /** The run that put the last manifest had selected from a ledger at least as long as every other that has put one. */
  ghost predicate LastPutterSawMost(events: seq<Event>)
    requires Putters(events) != []
  {
    var putters := Putters(events);
    forall k :: 0 <= k < |putters| ==> LedgerSeen(events, putters[k]) <= LedgerSeen(events, putters[|putters| - 1])
  }

  lemma HighestInHistory(events: seq<Event>)
    requires Putters(events) != []
    ensures After(events).manifests != []
    ensures LatestIsHighest(After(events)) <==> LastPutterSawMost(events)
  {
    EveryHistoryTraced(events);
    hide LedgerSeen, Putters, After;
    var s, putters := After(events), Putters(events);
    assert ManifestTraced(s, s.manifests[|putters| - 1], putters[|putters| - 1], LedgerSeen(events, putters[|putters| - 1]));
    forall k | 0 <= k < |putters|
      ensures s.manifests[k] in s.manifests && s.manifests[k].lastSequenceNum == LedgerSeen(events, putters[k]) - 1
    {
      assert ManifestTraced(s, s.manifests[k], putters[k], LedgerSeen(events, putters[k]));
    }
  }

  /**
   In every history the checkpoint modified last decides as well as all of them together exactly
   when the run that put it saw the most of the ledger, whichever exporters the runs belong to
   and whether or not they went on to commit.
   */
  lemma LatestDecidesInHistory(events: seq<Event>)
    requires Putters(events) != []
    ensures LatestDecides(After(events)) <==> LastPutterSawMost(events)
  {
    hide LatestDecides, Invariant, LatestIsHighest, LastPutterSawMost;
    EveryHistorySafe(events);
    HighestInHistory(events);
    LatestDecidesExactly(After(events));
  }

  // ----- A slower run -----

  /** A consistent fork between two stored checkpoints is caught by the higher and accepted by the lower. */
  lemma OnlyHigherCheckpointCatches(s: State, low: Manifest, high: Manifest, table: seq<Row>, d: nat)
    requires Invariant(s) && low in s.manifests && high in s.manifests
    requires low.lastSequenceNum < d <= high.lastSequenceNum
    requires ValidChain(table) && DivergesAt(table, s.ledger, d)
    ensures ValidatePostFailover(table, Found(low)).valid
    ensures !ValidatePostFailover(table, Found(high)).valid
  {
    hide ValidatePostFailover, ValidChain, DivergesAt;
    assert TrueManifest(s, low) && TrueManifest(s, high);
    ForkCaughtUpToCheckpoint(s.ledger, high, table, d);
    ForkCaughtUpToCheckpoint(s.ledger, low, table, d);
  }

  /**
   Two overlapping runs, of one exporter or of two, first-time runs included, and the one that
   read less finishes last. The checkpoint modified last is then the lower one: a consistent
   fork above it is accepted, although the higher checkpoint, still stored, catches it.
   */
  lemma SlowerRunLowersCheckpoint(s: State, slow: nat, fast: nat, table: seq<Row>, d: nat)
    requires Invariant(s) && slow != fast
    requires slow in s.runs && s.runs[slow].phase.HasRows?
    requires fast in s.runs && s.runs[fast].phase.HasRows?
    requires KeyOf(s.runs[slow].phase.rows).end < d <= KeyOf(s.runs[fast].phase.rows).end
    requires ValidChain(table) && DivergesAt(table, s.ledger, d)
    ensures var between, after := FinishRun(s, fast), FinishRun(FinishRun(s, fast), slow);
            && !LatestIsHighest(after)
            && between.manifests <= after.manifests
            && ValidatePostFailover(table, LatestCheckpoint(after)).valid
            && !ValidatePostFailover(table, LatestCheckpoint(between)).valid
  {
    hide FinishRun, ValidatePostFailover, ValidChain, DivergesAt, ExactSlice;
    var between := FinishRun(s, fast);
    var after := FinishRun(between, slow);
    assert SoundRun(s, s.runs[slow]) && SoundRun(s, s.runs[fast]);
    var high := ManifestOf(s.runs[fast].exporterId, s.runs[fast].phase.rows);
    var low := ManifestOf(s.runs[slow].exporterId, s.runs[slow].phase.rows);
    FinishRunWrites(s, fast);
    FinishRunWrites(between, slow);
    FinishRunKeeps(s, fast);
    FinishRunKeeps(between, slow);
    assert after.manifests == s.manifests + [high] + [low];
    assert high in after.manifests && low in after.manifests;
    OnlyHigherCheckpointCatches(after, low, high, table, d);
  }

  /** If both belong to one exporter with a recorded position, that position moves backwards and is still safe. */
  lemma SlowerRunLowersPosition(s: State, slow: nat, fast: nat)
    requires Invariant(s) && slow != fast
    requires slow in s.runs && s.runs[slow].phase.HasRows? && s.runs[slow].phase.lastSeq >= 0
    requires fast in s.runs && s.runs[fast].phase.HasRows? && s.runs[fast].phase.lastSeq >= 0
    requires s.runs[slow].exporterId == s.runs[fast].exporterId && s.runs[slow].exporterId in s.positions
    requires KeyOf(s.runs[slow].phase.rows).end < KeyOf(s.runs[fast].phase.rows).end
    ensures var between, after := FinishRun(s, fast), FinishRun(FinishRun(s, fast), slow);
            var x := s.runs[slow].exporterId;
            && x in between.positions && x in after.positions
            && after.positions[x] < between.positions[x]
            && StoredThrough(after, between.positions[x])
  {
    hide FinishRun, ExactSlice, StoredThrough, ValidLedger;
    var x := s.runs[slow].exporterId;
    var between := FinishRun(s, fast);
    var after := FinishRun(between, slow);
    assert SoundRun(s, s.runs[slow]) && SoundRun(s, s.runs[fast]);
    FinishRunWrites(s, fast);
    FinishRunWrites(between, slow);
    FinishRunKeeps(s, fast);
    FinishRunKeeps(between, slow);
    assert SoundPosition(between, x, between.positions[x]);
    StoredGrows(between, after, between.positions[x]);
  }

  /** A new run up to the point where it has selected its rows. */
  function StartRun(s: State, id: nat, exporterId: string): State {
    Step(Step(Step(s, Begin(id, exporterId)), ReadPosition(id)), SelectRows(id))
  }

  lemma StartRunReads(s: State, id: nat, exporterId: string)
    requires id !in s.runs && RowsAfter(s.ledger, Position(s, exporterId)) != []
    ensures var rows := RowsAfter(s.ledger, Position(s, exporterId));
            StartRun(s, id, exporterId)
            == s.(runs := s.runs[id := Run(exporterId, HasRows(Position(s, exporterId), rows))])
  {
    hide RowsAfter, Position;
    var s0 := Step(s, Begin(id, exporterId));
    var s1 := Step(s0, ReadPosition(id));
    assert s1.runs == s.runs[id := Run(exporterId, HasPosition(Position(s0, exporterId)))];
    assert Position(s0, exporterId) == Position(s, exporterId) by { SamePosition(s, s0, exporterId); }
    var s2 := Step(s1, SelectRows(id));
    assert s2.runs == s.runs[id := Run(exporterId, HasRows(Position(s, exporterId), RowsAfter(s.ledger, Position(s, exporterId))))];
  }

  lemma SamePosition(s: State, t: State, exporterId: string)
    requires s.positions == t.positions
    ensures Position(s, exporterId) == Position(t, exporterId)
  {
  }

  lemma StartRunKeeps(s: State, id: nat, exporterId: string)
    requires Invariant(s)
    ensures Invariant(StartRun(s, id, exporterId))
  {
    hide Invariant, Step;
    var s0 := Step(s, Begin(id, exporterId));
    var s1 := Step(s0, ReadPosition(id));
    StepKeepsInvariant(s, Begin(id, exporterId));
    StepKeepsInvariant(s0, ReadPosition(id));
    StepKeepsInvariant(s1, SelectRows(id));
  }

  lemma StartRunSelectsTail(s: State, id: nat, exporterId: string)
    requires Invariant(s) && id !in s.runs && Position(s, exporterId) < |s.ledger| - 1
    ensures var t := StartRun(s, id, exporterId);
            && Invariant(t) && t.ledger == s.ledger && t.positions == s.positions
            && t.runs.Keys == s.runs.Keys + {id} && (forall k :: k in s.runs ==> t.runs[k] == s.runs[k])
            && t.runs[id].exporterId == exporterId && t.runs[id].phase.HasRows?
            && t.runs[id].phase.lastSeq == Position(s, exporterId)
            && t.runs[id].phase.rows != [] && KeyOf(t.runs[id].phase.rows).end == |s.ledger| - 1
  {
    hide Invariant, StartRun, RowsAfter;
    RowsToExport(s, exporterId);
    StartRunReads(s, id, exporterId);
    StartRunKeeps(s, id, exporterId);
  }

  /** From every safe state two runs, of any exporters, can come to overlap as above. */
  lemma OverlapCanArise(s: State, x: string, y: string, slow: nat, fast: nat, first: Payload, second: Payload, now: Instant)
    requires Invariant(s)
    requires slow !in s.runs && fast !in s.runs && slow != fast
    ensures var t := StartRun(Step(StartRun(Step(s, AppendRow(first, now)), slow, x), AppendRow(second, now)), fast, y);
            && Invariant(t) && t.positions == s.positions
            && slow in t.runs && t.runs[slow].phase.HasRows? && t.runs[slow].exporterId == x
            && fast in t.runs && t.runs[fast].phase.HasRows? && t.runs[fast].exporterId == y
            && t.runs[slow].phase.lastSeq == Position(s, x) && t.runs[fast].phase.lastSeq == Position(s, y)
            && t.runs[slow].phase.rows != [] && t.runs[fast].phase.rows != []
            && KeyOf(t.runs[slow].phase.rows).end < KeyOf(t.runs[fast].phase.rows).end
  {
    hide StartRun, TrueManifest, SoundRun, ExactSlice, ValidLedger;
    PositionInLedger(s, x);
    PositionInLedger(s, y);
    var s1 := Step(s, AppendRow(first, now));
    StepKeepsInvariant(s, AppendRow(first, now));
    StartRunSelectsTail(s1, slow, x);
    var s2 := StartRun(s1, slow, x);
    var s3 := Step(s2, AppendRow(second, now));
    StepKeepsInvariant(s2, AppendRow(second, now));
    StartRunSelectsTail(s3, fast, y);
  }

  lemma PositionInLedger(s: State, exporterId: string)
    requires Invariant(s)
    ensures -1 <= Position(s, exporterId) < |s.ledger|
  {
    hide TrueManifest, SoundRun, ExactSlice, ValidLedger;
    assert exporterId in s.positions ==> SoundPosition(s, exporterId, s.positions[exporterId]);
  }

  // ----- One undisturbed run -----

  /** The statements of a run with nothing in between; its bookkeeping is dropped at the end. */
  function Undisturbed(s: State, exporterId: string): State {
    var s0 := Step(s.(runs := map[]), Begin(0, exporterId));
    var s1 := Step(Step(s0, ReadPosition(0)), SelectRows(0));
    FinishRun(s1, 0).(runs := map[])
  }

  /** The database row and the bucket that runs of the exporter change in place. */
  class Backup {
    var positions: map<string, int>
    var entries: map<EntriesKey, seq<Row>>
    var manifests: seq<Manifest>

    constructor ()
      ensures Contents([]) == INITIAL
    {
      positions, entries, manifests := map[], map[], [];
    }

    ghost function Contents(ledger: seq<Row>): (s: State)
      reads this
    {
      State(ledger, positions, entries, manifests, map[])
    }

    method ExportNewEntries(ledger: seq<Row>, exporterId: string) returns (manifest: Option<Manifest>)
      requires Invariant(Contents(ledger))
      modifies this
      ensures Contents(ledger) == Undisturbed(old(Contents(ledger)), exporterId)
      ensures Invariant(Contents(ledger)) && Grows(old(Contents(ledger)), Contents(ledger))
      ensures ledger != [] ==> exporterId in positions && positions[exporterId] == |ledger| - 1
                               && StoredThrough(Contents(ledger), |ledger| - 1)
      ensures manifest.None? <==> old(Position(Contents(ledger), exporterId)) == |ledger| - 1
      ensures manifest.None? ==> Contents(ledger) == old(Contents(ledger))
      ensures manifest.Some? ==> LatestCheckpoint(Contents(ledger)) == Found(manifest.value)
                                 && manifest.value.lastSequenceNum == |ledger| - 1
    {
      hide Undisturbed, Invariant, StoredThrough, RowsAfter, Grows;
      UndisturbedSummary(Contents(ledger), exporterId);
      var lastSeq := if exporterId in positions then positions[exporterId] else -1;
      var rows := RowsAfter(ledger, lastSeq);
      if rows == [] {
        return None;
      }
      entries := entries[KeyOf(rows) := rows];
      var m := ManifestOf(exporterId, rows);
      manifests := manifests + [m];
      // UPDATE for a known exporter, INSERT for a new one.
      positions := positions[exporterId := rows[|rows| - 1].sequenceNum];
      return Some(m);
    }
  }

  /** The run's effect on table and bucket, from the rows above the exporter's position. */
  lemma UndisturbedWrites(s: State, exporterId: string)
    requires s.runs == map[]
    requires exporterId in s.positions ==> s.positions[exporterId] >= 0
    ensures var rows := RowsAfter(s.ledger, Position(s, exporterId));
            Undisturbed(s, exporterId)
            == if rows == [] then s
               else State(s.ledger, s.positions[exporterId := rows[|rows| - 1].sequenceNum],
                          s.entries[KeyOf(rows) := rows], s.manifests + [ManifestOf(exporterId, rows)], map[])
  {
    hide RowsAfter, FinishRun;
    var lastSeq := Position(s, exporterId);
    var rows := RowsAfter(s.ledger, lastSeq);
    assert s.(runs := map[]) == s;
    var s0 := Step(s, Begin(0, exporterId));
    var s1 := Step(s0, ReadPosition(0));
    var s2 := Step(s1, SelectRows(0));
    assert s1.runs[0] == Run(exporterId, HasPosition(lastSeq));
    assert s2.runs[0] == Run(exporterId, if rows == [] then Finished else HasRows(lastSeq, rows));
    if rows == [] {
      FinishedRunStays(s2, 0);
    } else {
      FinishRunWrites(s2, 0);
    }
  }

  lemma UndisturbedKeeps(s: State, exporterId: string)
    requires Invariant(s) && s.runs == map[]
    ensures Invariant(Undisturbed(s, exporterId)) && Grows(s, Undisturbed(s, exporterId))
  {
    assert s.(runs := map[]) == s;
    var s0 := Step(s, Begin(0, exporterId));
    var s1 := Step(s0, ReadPosition(0));
    var s2 := Step(s1, SelectRows(0));
    StepKeepsInvariant(s, Begin(0, exporterId));
    StepKeepsInvariant(s0, ReadPosition(0));
    StepKeepsInvariant(s1, SelectRows(0));
    FinishRunKeeps(s2, 0);
    InvariantGrows(FinishRun(s2, 0), Undisturbed(s, exporterId));
  }

  /** From a safe position the rows above it are missing exactly when it is the end of the ledger. */
  lemma RowsToExport(s: State, exporterId: string)
    requires Invariant(s)
    ensures var rows := RowsAfter(s.ledger, Position(s, exporterId));
            && (exporterId in s.positions ==> s.positions[exporterId] >= 0)
            && (rows == [] <==> Position(s, exporterId) == |s.ledger| - 1)
            && (rows != [] ==> rows[|rows| - 1].sequenceNum == |s.ledger| - 1)
  {
    assert exporterId in s.positions ==> SoundPosition(s, exporterId, s.positions[exporterId]);
    assert s.ledger[0..] == s.ledger;
    RowsAfterIsSuffix(s.ledger, 0, Position(s, exporterId));
    if s.ledger != [] {
      SequenceIsIndex(s.ledger, |s.ledger| - 1);
    }
  }

  /** Afterwards the exporter's position is the end of the ledger and everything up to it is stored. */
  lemma UndisturbedStores(s: State, exporterId: string)
    requires Invariant(s) && s.runs == map[] && s.ledger != []
    ensures var t := Undisturbed(s, exporterId);
            && exporterId in t.positions && t.positions[exporterId] == |s.ledger| - 1
            && StoredThrough(t, |s.ledger| - 1)
  {
    hide Undisturbed, StoredThrough, RowsAfter, Invariant, Grows, ManifestOf, KeyOf;
    RowsToExport(s, exporterId);
    UndisturbedWrites(s, exporterId);
    UndisturbedKeeps(s, exporterId);
    PositionIsSafe(Undisturbed(s, exporterId), exporterId);
  }

  lemma PositionIsSafe(s: State, exporterId: string)
    requires Invariant(s) && exporterId in s.positions
    ensures s.positions[exporterId] >= 0 && StoredThrough(s, s.positions[exporterId])
  {
    hide StoredThrough, ExactSlice, TrueManifest, SoundRun;
    assert SoundPosition(s, exporterId, s.positions[exporterId]);
  }

  lemma UndisturbedSummary(s: State, exporterId: string)
    requires Invariant(s) && s.runs == map[]
    ensures var rows, t := RowsAfter(s.ledger, Position(s, exporterId)), Undisturbed(s, exporterId);
            && (rows == [] <==> Position(s, exporterId) == |s.ledger| - 1)
            && (rows == [] ==> t == s)
            && (rows != [] ==> rows[|rows| - 1].sequenceNum == |s.ledger| - 1)
            && (rows != [] ==> t == State(s.ledger, s.positions[exporterId := |s.ledger| - 1],
                                          s.entries[KeyOf(rows) := rows], s.manifests + [ManifestOf(exporterId, rows)], map[]))
            && Invariant(t) && Grows(s, t)
            && (s.ledger != [] ==> exporterId in t.positions && StoredThrough(t, |s.ledger| - 1))
  {
    hide Undisturbed, Invariant, StoredThrough, RowsAfter, Grows;
    RowsToExport(s, exporterId);
    UndisturbedWrites(s, exporterId);
    UndisturbedKeeps(s, exporterId);
    if s.ledger != [] {
      UndisturbedStores(s, exporterId);
    }
  }

  /** Running again at once finds nothing and changes nothing. */
  lemma ReRunIsIdle(s: State, exporterId: string)
    requires Invariant(s) && s.runs == map[]
    ensures Undisturbed(Undisturbed(s, exporterId), exporterId) == Undisturbed(s, exporterId)
  {
    hide Undisturbed, Invariant, RowsAfter;
    var t := Undisturbed(s, exporterId);
    UndisturbedKeeps(s, exporterId);
    RowsToExport(s, exporterId);
    RowsToExport(t, exporterId);
    UndisturbedWrites(s, exporterId);
    UndisturbedWrites(t, exporterId);
  }
}
