/**
 The hash-chained audit ledger: appending a row, verifying a table of rows, and the
 decision taken after a failover about whether the new primary carries the same history.

 Hashes are free constructors, so two hashes are equal only when they were computed from
 equal inputs. `RawDigest` and `RawHash` stand for stored text that is no hash of anything
 known (a tampered column).
 */
module LedgerChain {

  import opened Prelude

  type Instant = int

  datatype Outcome = Pass | Fail | HitlReview

  /** The ten business columns that go into `payload_digest`. */
  datatype Payload = Payload(
    brokerId: string,
    transactionId: string,
    evaluatedAt: Instant,
    circularId: string,
    clauseHash: string,
    sectionReference: string,
    ruleId: string,
    evaluationResult: Outcome,
    hitlReviewId: Option<string>,
    details: string)

  datatype Digest = Sha(payload: Payload) | RawDigest(text: string)

  datatype Hash =
    | Genesis
    | Block(previous: Hash, digest: Digest, sequenceNum: int, evaluatedAt: Instant)
    | RawHash(text: string)

  datatype Row = Row(
    sequenceNum: int,
    payload: Payload,
    payloadDigest: Digest,
    previousHash: Hash,
    currentHash: Hash,
    createdAt: Instant)

  // ----- Appending -----

  function BlockOf(row: Row): Hash {
    Block(row.previousHash, row.payloadDigest, row.sequenceNum, row.payload.evaluatedAt)
  }

  /** What `LedgerService` writes after a ledger; `now` is the insertion clock. */
  function Append(ledger: seq<Row>, payload: Payload, now: Instant): (r: seq<Row>) {
    var sequenceNum := if ledger == [] then 0 else ledger[|ledger| - 1].sequenceNum + 1;
    var previousHash := if ledger == [] then Genesis else ledger[|ledger| - 1].currentHash;
    var digest := Sha(payload);
    ledger + [Row(sequenceNum, payload, digest, previousHash,
                  Block(previousHash, digest, sequenceNum, payload.evaluatedAt), now)]
  }

  /** Row `i` is what the hash chain demands at its place, given that the table starts at `first`. */
  ghost predicate Linked(rows: seq<Row>, i: nat)
    requires i < |rows|
  {
    && rows[i].sequenceNum == rows[0].sequenceNum + i
    && rows[i].previousHash == (if i == 0 then Genesis else rows[i - 1].currentHash)
    && rows[i].payloadDigest == Sha(rows[i].payload)
    && rows[i].currentHash == BlockOf(rows[i])
  }

  /** An internally consistent chain: anchored in the genesis block and linked row by row. */
  ghost predicate ValidChain(rows: seq<Row>) {
    && (rows != [] ==> rows[0].sequenceNum <= 0)
    && forall i :: 0 <= i < |rows| ==> Linked(rows, i)
  }

  /** A ledger written by the append service alone. */
  ghost predicate ValidLedger(rows: seq<Row>) {
    ValidChain(rows) && (rows != [] ==> rows[0].sequenceNum == 0)
  }

  lemma AppendKeepsLedger(ledger: seq<Row>, payload: Payload, now: Instant)
    requires ValidLedger(ledger)
    ensures ValidLedger(Append(ledger, payload, now))
    ensures ledger <= Append(ledger, payload, now)
    ensures |Append(ledger, payload, now)| == |ledger| + 1
    ensures var row := Append(ledger, payload, now)[|ledger|];
            row.sequenceNum == |ledger| && row.payload == payload && row.createdAt == now
  {
    var next := Append(ledger, payload, now);
    assert ledger != [] ==> Linked(ledger, |ledger| - 1);
    forall i | 0 <= i < |next|
      ensures Linked(next, i)
    {
      if i < |ledger| {
        assert Linked(ledger, i);
      } else if |ledger| > 0 {
        assert Linked(ledger, |ledger| - 1);
      }
    }
  }

  // ----- Verifying -----

  datatype Defect = Unanchored | Gap | PreviousHashMismatch | DigestMismatch | BlockHashMismatch

  datatype ChainBreak = ChainBreak(sequenceNum: int, defect: Defect)

  datatype Verification = Verification(valid: bool, entriesChecked: nat, breaks: seq<ChainBreak>)

  /** The breaks one row contributes, in the order in which the verifier tests for them. */
  function RowBreaks(row: Row, previousHash: Hash, previousSequence: int): (r: seq<ChainBreak>) {
    (if row.sequenceNum != previousSequence + 1 then [ChainBreak(row.sequenceNum, Gap)] else [])
    + (if row.previousHash != previousHash then [ChainBreak(row.sequenceNum, PreviousHashMismatch)] else [])
    + (if row.payloadDigest != Sha(row.payload) then [ChainBreak(row.sequenceNum, DigestMismatch)] else [])
    + (if row.currentHash != BlockOf(row) then [ChainBreak(row.sequenceNum, BlockHashMismatch)] else [])
  }

  /** The breaks of row `i`; the first row follows the genesis block and its own predecessor's number. */
  function BreaksOfRow(rows: seq<Row>, i: nat): (r: seq<ChainBreak>)
    requires i < |rows|
  {
    RowBreaks(rows[i],
              if i == 0 then Genesis else rows[i - 1].currentHash,
              if i == 0 then rows[0].sequenceNum - 1 else rows[i - 1].sequenceNum)
  }

  /** The breaks of the first `n` rows of a table whose predecessor row, if any, has already been found. */
  function BreaksUpTo(rows: seq<Row>, n: nat): (r: seq<ChainBreak>)
    requires n <= |rows|
  {
    if n == 0 then [] else BreaksUpTo(rows, n - 1) + BreaksOfRow(rows, n - 1)
  }

  /** The verifier's answer for a whole table. A table starting above 0 has no predecessor row to anchor to. */
  function ChainBreaks(rows: seq<Row>): (r: seq<ChainBreak>) {
    if rows != [] && rows[0].sequenceNum > 0 then [ChainBreak(rows[0].sequenceNum, Unanchored)]
    else BreaksUpTo(rows, |rows|)
  }

  method CheckRow(row: Row, previousHash: Hash, previousSequence: int) returns (breaks: seq<ChainBreak>)
    ensures breaks == RowBreaks(row, previousHash, previousSequence)
    ensures breaks == [] <==> && row.sequenceNum == previousSequence + 1
                              && row.previousHash == previousHash
                              && row.payloadDigest == Sha(row.payload)
                              && row.currentHash == BlockOf(row)
  {
    breaks := [];
    if row.sequenceNum != previousSequence + 1 {
      breaks := breaks + [ChainBreak(row.sequenceNum, Gap)];
    }
    if row.previousHash != previousHash {
      breaks := breaks + [ChainBreak(row.sequenceNum, PreviousHashMismatch)];
    }
    if row.payloadDigest != Sha(row.payload) {
      breaks := breaks + [ChainBreak(row.sequenceNum, DigestMismatch)];
    }
    if BlockOf(row) != row.currentHash {
      breaks := breaks + [ChainBreak(row.sequenceNum, BlockHashMismatch)];
    }
  }

  method VerifyChain(rows: seq<Row>) returns (r: Verification)
    ensures r.entriesChecked == |rows|
    ensures r.breaks == ChainBreaks(rows)
    ensures r.valid <==> ValidChain(rows)
  {
    NoBreaksMeansValid(rows);
    if |rows| == 0 {
      return Verification(true, 0, []);
    }
    var firstSequence := rows[0].sequenceNum;
    var anchorHash := Genesis;
    if firstSequence > 0 {
      // The whole table was selected, so there is no row below the first.
      return Verification(false, |rows|, [ChainBreak(firstSequence, Unanchored)]);
    }
    var breaks: seq<ChainBreak> := [];
    var previousHash := anchorHash;
    var previousSequence := firstSequence - 1;
    for i := 0 to |rows|
      invariant breaks == BreaksUpTo(rows, i)
      invariant previousHash == if i == 0 then Genesis else rows[i - 1].currentHash
      invariant previousSequence == if i == 0 then firstSequence - 1 else rows[i - 1].sequenceNum
    {
      var row := rows[i];
      assert BreaksUpTo(rows, i + 1) == BreaksUpTo(rows, i) + BreaksOfRow(rows, i);
      var found := CheckRow(row, previousHash, previousSequence);
      breaks := breaks + found;
      previousHash := row.currentHash;
      previousSequence := row.sequenceNum;
    }
    r := Verification(breaks == [], |rows|, breaks);
  }

  lemma NoBreaksInRow(rows: seq<Row>, i: nat)
    requires i < |rows| && (i > 0 ==> Linked(rows, i - 1))
    ensures BreaksOfRow(rows, i) == [] <==> Linked(rows, i)
  {
  }

  ghost predicate LinkedUpTo(rows: seq<Row>, n: nat)
    requires n <= |rows|
  {
    forall i :: 0 <= i < n ==> Linked(rows, i)
  }

  lemma LinkedStep(rows: seq<Row>, n: nat)
    requires n < |rows|
    ensures LinkedUpTo(rows, n + 1) <==> LinkedUpTo(rows, n) && BreaksOfRow(rows, n) == []
  {
    if LinkedUpTo(rows, n) {
      assert n > 0 ==> Linked(rows, n - 1);
      NoBreaksInRow(rows, n);
    }
    hide Linked, BreaksOfRow;
  }

  lemma BothEmpty(x: seq<ChainBreak>, y: seq<ChainBreak>)
    ensures x + y == [] <==> x == [] && y == []
  {
    assert |x + y| == |x| + |y|;
  }

  lemma {:induction false} NoBreaksUpTo(rows: seq<Row>, n: nat)
    requires n <= |rows|
    ensures BreaksUpTo(rows, n) == [] <==> LinkedUpTo(rows, n)
  {
    if n == 0 {
      assert LinkedUpTo(rows, 0);
    } else {
      hide BreaksOfRow, LinkedUpTo;
      assert BreaksUpTo(rows, n) == BreaksUpTo(rows, n - 1) + BreaksOfRow(rows, n - 1);
      hide BreaksUpTo;
      NoBreaksUpTo(rows, n - 1);
      LinkedStep(rows, n - 1);
      BothEmpty(BreaksUpTo(rows, n - 1), BreaksOfRow(rows, n - 1));
    }
  }

  /** No break is reported exactly when every row is anchored and linked. */
  lemma NoBreaksMeansValid(rows: seq<Row>)
    ensures ChainBreaks(rows) == [] <==> ValidChain(rows)
  {
    NoBreaksUpTo(rows, |rows|);
  }

  /** What each defect says about row `i`, compared with the row before it. */
  ghost predicate HasDefect(rows: seq<Row>, i: nat, defect: Defect)
    requires i < |rows|
  {
    match defect
    case Unanchored => i == 0 && rows[0].sequenceNum > 0
    case Gap => i > 0 && rows[i].sequenceNum - rows[i - 1].sequenceNum != 1
    case PreviousHashMismatch => rows[i].previousHash != if i == 0 then Genesis else rows[i - 1].currentHash
    case DigestMismatch => rows[i].payloadDigest != Sha(rows[i].payload)
    case BlockHashMismatch => rows[i].currentHash != BlockOf(rows[i])
  }

  /** One of the first `n` rows has the number and the defect that `b` names. */
  ghost predicate Broken(rows: seq<Row>, n: nat, b: ChainBreak)
    requires n <= |rows|
  {
    exists i :: 0 <= i < n && rows[i].sequenceNum == b.sequenceNum && HasDefect(rows, i, b.defect)
  }

  lemma RowBreaksExactly(rows: seq<Row>, i: nat, b: ChainBreak)
    requires i < |rows| && rows[0].sequenceNum <= 0
    ensures b in BreaksOfRow(rows, i) <==> rows[i].sequenceNum == b.sequenceNum && HasDefect(rows, i, b.defect)
  {
  }

  lemma BrokenStep(rows: seq<Row>, n: nat, b: ChainBreak)
    requires n < |rows|
    ensures Broken(rows, n + 1, b)
       <==> Broken(rows, n, b) || (rows[n].sequenceNum == b.sequenceNum && HasDefect(rows, n, b.defect))
  {
    hide HasDefect;
    if Broken(rows, n + 1, b) && !Broken(rows, n, b) {
      var i :| 0 <= i < n + 1 && rows[i].sequenceNum == b.sequenceNum && HasDefect(rows, i, b.defect);
      assert i == n;
    }
  }

  lemma InEither(b: ChainBreak, x: seq<ChainBreak>, y: seq<ChainBreak>)
    ensures b in x + y <==> b in x || b in y
  {
  }

  lemma {:induction false} BreaksUpToExactly(rows: seq<Row>, n: nat, b: ChainBreak)
    requires n <= |rows| && (rows != [] ==> rows[0].sequenceNum <= 0)
    ensures b in BreaksUpTo(rows, n) <==> Broken(rows, n, b)
  {
    if n == 0 {
      assert !Broken(rows, 0, b);
    } else {
      hide BreaksOfRow, HasDefect, Broken;
      assert BreaksUpTo(rows, n) == BreaksUpTo(rows, n - 1) + BreaksOfRow(rows, n - 1);
      hide BreaksUpTo;
      BreaksUpToExactly(rows, n - 1, b);
      RowBreaksExactly(rows, n - 1, b);
      BrokenStep(rows, n - 1, b);
      InEither(b, BreaksUpTo(rows, n - 1), BreaksOfRow(rows, n - 1));
    }
  }

  /**
   A break is reported exactly when a row of that number has that defect. Only a table that does
   not start at the genesis block is reported by its first row alone and looked at no further.
   */
  lemma BreaksExactly(rows: seq<Row>, b: ChainBreak)
    ensures rows != [] && HasDefect(rows, 0, Unanchored) ==>
              (b in ChainBreaks(rows) <==> b == ChainBreak(rows[0].sequenceNum, Unanchored))
    ensures rows == [] || !HasDefect(rows, 0, Unanchored) ==> (b in ChainBreaks(rows) <==> Broken(rows, |rows|, b))
  {
    if rows == [] || rows[0].sequenceNum <= 0 {
      BreaksUpToExactly(rows, |rows|, b);
    }
  }

  // ----- Deciding after a failover -----

  /** A checkpoint manifest: the last row of one export, the object that holds it and its size. */
  datatype Manifest = Manifest(
    exporterId: string,
    startSequenceNum: int,
    lastSequenceNum: int,
    lastCurrentHash: Hash,
    rowCount: nat)

  /** What the caller of the validator gets from the checkpoint bucket. */
  datatype Checkpoint = NoBucket | NoManifest | Found(manifest: Manifest)

  datatype Detail = NotCompared | Skipped | RowMissing | HashMismatch | Matches

  datatype Validation = Validation(
    valid: bool,
    internalChainValid: bool,
    checkpointMatched: Option<bool>,
    entriesChecked: nat,
    breaks: seq<ChainBreak>,
    detail: Detail)

  /** `SELECT current_hash WHERE sequence_num = s`. */
  function SelectHash(rows: seq<Row>, sequenceNum: int): (r: Option<Hash>)
    ensures r.Some? ==> exists i :: 0 <= i < |rows| && rows[i].sequenceNum == sequenceNum && rows[i].currentHash == r.value
    ensures r.None? ==> forall i :: 0 <= i < |rows| ==> rows[i].sequenceNum != sequenceNum
  {
    if rows == [] then None
    else if rows[0].sequenceNum == sequenceNum then Some(rows[0].currentHash)
    else SelectHash(rows[1..], sequenceNum)
  }

  function ValidatePostFailover(rows: seq<Row>, checkpoint: Checkpoint): (r: Validation) {
    var breaks := ChainBreaks(rows);
    var chainValid := breaks == [];
    match checkpoint
    case NoBucket => Validation(chainValid, chainValid, None, |rows|, breaks, NotCompared)
    case NoManifest => Validation(chainValid, chainValid, None, |rows|, breaks, Skipped)
    case Found(m) =>
      match SelectHash(rows, m.lastSequenceNum)
      case None => Validation(false, chainValid, Some(false), |rows|, breaks, RowMissing)
      case Some(h) =>
        if h != m.lastCurrentHash then Validation(false, chainValid, Some(false), |rows|, breaks, HashMismatch)
        else Validation(chainValid, chainValid, Some(true), |rows|, breaks, Matches)
  }

  /** What the validator reports besides its verdict, for each of the three checkpoints. */
  lemma ValidationReports(rows: seq<Row>, checkpoint: Checkpoint)
    ensures var r := ValidatePostFailover(rows, checkpoint);
            && r.entriesChecked == |rows| && (forall b :: b in r.breaks <==> b in ChainBreaks(rows))
            && (r.internalChainValid <==> ValidChain(rows))
            && (r.valid <==> r.internalChainValid && r.checkpointMatched != Some(false))
            && (r.checkpointMatched == None <==> checkpoint == NoBucket || checkpoint == NoManifest)
            && (r.detail == NotCompared <==> checkpoint == NoBucket)
            && (r.detail == Skipped <==> checkpoint == NoManifest)
  {
    NoBreaksMeansValid(rows);
    hide ChainBreaks, ValidChain, SelectHash;
  }

  /** `sequence_num` is unique. */
  ghost predicate DistinctNumbers(rows: seq<Row>) {
    forall i, j :: 0 <= i < j < |rows| ==> rows[i].sequenceNum != rows[j].sequenceNum
  }

  ghost predicate RowWith(rows: seq<Row>, sequenceNum: int, currentHash: Hash) {
    exists i :: 0 <= i < |rows| && rows[i].sequenceNum == sequenceNum && rows[i].currentHash == currentHash
  }

  /** What it reports about a checkpoint: the row is missing, is there with that hash, or is there with another. */
  lemma CheckpointReports(rows: seq<Row>, m: Manifest)
    requires DistinctNumbers(rows)
    ensures var r := ValidatePostFailover(rows, Found(m));
            && (r.detail == RowMissing <==> forall h :: !RowWith(rows, m.lastSequenceNum, h))
            && (r.detail == Matches <==> RowWith(rows, m.lastSequenceNum, m.lastCurrentHash))
            && (r.detail == HashMismatch <==> exists h :: h != m.lastCurrentHash && RowWith(rows, m.lastSequenceNum, h))
            && r.checkpointMatched == Some(r.detail == Matches)
  {
    hide ChainBreaks;
    match SelectHash(rows, m.lastSequenceNum)
    case None =>
      forall h
        ensures !RowWith(rows, m.lastSequenceNum, h)
      {
      }
    case Some(h) =>
      assert RowWith(rows, m.lastSequenceNum, h);
  }

  /** Two rows agree in every column the chain covers; `createdAt` is not one of them. */
  ghost predicate SameEntry(a: Row, b: Row) {
    a == b.(createdAt := a.createdAt)
  }

  /** Tables `a` and `b` both reach row `c` and carry the same history up to and including it. */
  ghost predicate AgreeThrough(a: seq<Row>, b: seq<Row>, c: nat) {
    && c < |a| && c < |b|
    && forall i :: 0 <= i <= c ==> SameEntry(a[i], b[i])
  }

  /** In internally consistent chains one equal block hash forces equal histories below it. */
  lemma {:induction false} EqualHashEqualHistory(a: seq<Row>, b: seq<Row>, i: nat, j: nat)
    requires ValidChain(a) && ValidChain(b)
    requires i < |a| && j < |b| && a[i].currentHash == b[j].currentHash
    ensures i == j && AgreeThrough(a, b, i)
    decreases i
  {
    assert Linked(a, i) && Linked(b, j);
    assert SameEntry(a[i], b[j]);
    assert i > 0 ==> Linked(a, i - 1);
    assert j > 0 ==> Linked(b, j - 1);
    if i > 0 && j > 0 {
      EqualHashEqualHistory(a, b, i - 1, j - 1);
    }
  }

  lemma {:induction false} SelectInChain(rows: seq<Row>, k: int)
    requires ValidChain(rows)
    ensures SelectHash(rows, k)
         == if rows != [] && 0 <= k - rows[0].sequenceNum < |rows|
            then Some(rows[k - rows[0].sequenceNum].currentHash) else None
  {
    if rows != [] {
      var i := k - rows[0].sequenceNum;
      forall m | 0 <= m < |rows|
        ensures rows[m].sequenceNum == rows[0].sequenceNum + m
      {
        assert Linked(rows, m);
      }
      var r := SelectHash(rows, k);
      if 0 <= i < |rows| {
        assert rows[i].sequenceNum == k;
      }
    }
  }

  lemma VerdictNeedsRow(m: Manifest, table: seq<Row>)
    ensures ValidatePostFailover(table, Found(m)).valid
       <==> ValidChain(table) && SelectHash(table, m.lastSequenceNum) == Some(m.lastCurrentHash)
  {
    NoBreaksMeansValid(table);
    hide ChainBreaks, ValidChain, SelectHash;
  }

  /** The row a checkpoint names is in a chain exactly when the chain carries the ledger's history up to it. */
  lemma CheckpointRow(ledger: seq<Row>, c: nat, table: seq<Row>)
    requires ValidLedger(ledger) && c < |ledger| && ValidChain(table)
    ensures SelectHash(table, c) == Some(ledger[c].currentHash) <==> AgreeThrough(table, ledger, c)
  {
    hide SelectHash;
    SelectInChain(table, c);
    assert Linked(ledger, 0);
    if AgreeThrough(table, ledger, c) {
      assert SameEntry(table[0], ledger[0]);
      assert SameEntry(table[c], ledger[c]);
    } else if table != [] && 0 <= c - table[0].sequenceNum < |table| {
      var i := c - table[0].sequenceNum;
      if table[i].currentHash == ledger[c].currentHash {
        EqualHashEqualHistory(table, ledger, i, c);
      }
    }
  }

  /**
   With a checkpoint taken at row `c` of a ledger, the verdict on any table is "valid" exactly
   when the table is an internally consistent chain that carries the ledger's own rows 0..c.
   */
  lemma CheckpointVerdict(ledger: seq<Row>, m: Manifest, table: seq<Row>)
    requires ValidLedger(ledger)
    requires 0 <= m.lastSequenceNum < |ledger|
    requires m.lastCurrentHash == ledger[m.lastSequenceNum].currentHash
    ensures ValidatePostFailover(table, Found(m)).valid
       <==> ValidChain(table) && AgreeThrough(table, ledger, m.lastSequenceNum)
  {
    hide ValidatePostFailover, ValidChain, SelectHash, AgreeThrough;
    VerdictNeedsRow(m, table);
    if ValidChain(table) {
      CheckpointRow(ledger, m.lastSequenceNum, table);
    }
  }

  /**
   The same against the ledger the checkpoint was taken from, for an internally consistent table:
   a match is reported exactly when the histories agree up to the checkpoint, a missing row
   exactly when the table ends before it, and a fork in all other cases.
   */
  lemma CheckpointReportsHistory(ledger: seq<Row>, m: Manifest, table: seq<Row>)
    requires ValidLedger(ledger) && ValidChain(table)
    requires 0 <= m.lastSequenceNum < |ledger|
    requires m.lastCurrentHash == ledger[m.lastSequenceNum].currentHash
    ensures var r, c := ValidatePostFailover(table, Found(m)), m.lastSequenceNum;
            && (r.checkpointMatched == Some(true) && r.detail == Matches <==> AgreeThrough(table, ledger, c))
            && (r.checkpointMatched == Some(false) && r.detail == RowMissing
                <==> table == [] || table[|table| - 1].sequenceNum < c)
            && (r.checkpointMatched == Some(false) && r.detail == HashMismatch
                <==> table != [] && c <= table[|table| - 1].sequenceNum && !AgreeThrough(table, ledger, c))
  {
    hide SelectHash, AgreeThrough, ChainBreaks;
    assert table != [] ==> Linked(table, |table| - 1);
    SelectInChain(table, m.lastSequenceNum);
    CheckpointRow(ledger, m.lastSequenceNum, table);
  }

  /** `d` is where `table` stops carrying the ledger's history. */
  ghost predicate DivergesAt(table: seq<Row>, ledger: seq<Row>, d: nat) {
    && d <= |table| && d <= |ledger|
    && (forall i :: 0 <= i < d ==> SameEntry(table[i], ledger[i]))
    && (d < |table| && d < |ledger| ==> !SameEntry(table[d], ledger[d]))
  }

  /** An internally consistent fork or truncation is caught exactly when it lies at or before the checkpoint. */
  lemma ForkCaughtUpToCheckpoint(ledger: seq<Row>, m: Manifest, table: seq<Row>, d: nat)
    requires ValidLedger(ledger) && ValidChain(table)
    requires 0 <= m.lastSequenceNum < |ledger|
    requires m.lastCurrentHash == ledger[m.lastSequenceNum].currentHash
    requires DivergesAt(table, ledger, d)
    ensures !ValidatePostFailover(table, Found(m)).valid <==> d <= m.lastSequenceNum
  {
    hide ValidatePostFailover, ValidChain;
    CheckpointVerdict(ledger, m, table);
    var c := m.lastSequenceNum;
    if d <= c && d < |table| {
      assert !SameEntry(table[d], ledger[d]);
    }
  }

  /** Equal hashes do not cover the insertion clock: a table with other `createdAt` values passes every check. */
  lemma InsertionClockIsNotCovered(ledger: seq<Row>, m: Manifest, table: seq<Row>)
    requires ValidLedger(ledger)
    requires 0 <= m.lastSequenceNum < |ledger|
    requires m.lastCurrentHash == ledger[m.lastSequenceNum].currentHash
    requires |table| == |ledger| && forall i :: 0 <= i < |ledger| ==> SameEntry(table[i], ledger[i])
    ensures ValidatePostFailover(table, Found(m)).valid
  {
    forall i | 0 <= i < |table|
      ensures Linked(table, i)
    {
      assert Linked(ledger, i);
      assert SameEntry(table[i], ledger[i]) && SameEntry(table[0], ledger[0]);
      assert i > 0 ==> SameEntry(table[i - 1], ledger[i - 1]);
    }
    assert SameEntry(table[0], ledger[0]);
    CheckpointVerdict(ledger, m, table);
  }

  /**
   Without a checkpoint nothing but internal consistency is decided. For every ledger and every
   `d` there is a table that leaves the ledger at row `d` and is still accepted.
   */
  lemma {:induction false} NoCheckpointAcceptsForks(ledger: seq<Row>, d: nat, payload: Payload, now: Instant)
    returns (fork: seq<Row>)
    requires ValidLedger(ledger) && d < |ledger|
    requires payload != ledger[d].payload
    ensures DivergesAt(fork, ledger, d) && d < |fork|
    ensures ValidatePostFailover(fork, NoBucket).valid && ValidatePostFailover(fork, NoManifest).valid
  {
    var prefix := ledger[..d];
    forall i | 0 <= i < |prefix|
      ensures Linked(prefix, i)
    {
      assert Linked(ledger, i);
    }
    AppendKeepsLedger(prefix, payload, now);
    fork := Append(prefix, payload, now);
    NoBreaksMeansValid(fork);
  }
}
