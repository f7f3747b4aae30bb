/**
 The outage monitor and the failover it starts: consecutive failed health checks are counted,
 a confirmed outage runs the orchestrator (lag gate, promotion, DNS, chain validation), and an
 exception raised there or by a health check ends the monitor. What the checks and the cloud APIs answer are inputs.
 */
module Failover {
  import opened Prelude
  import opened LedgerChain

  /** What a health check finds; `CheckRaises` is an answer with status 200 that cannot be read. */
  datatype Health = Healthy | Unhealthy | CheckRaises

  /** The replica's lag; without recent datapoints it counts as infinite. `LagRaises` is a failed query or configuration. */
  datatype Lag = Unknown | Seconds(s: real) | LagRaises

  /**
   What becomes of the DNS change: refused, taken over although the call ends in an exception,
   or taken over. A change that does not propagate in time is logged and taken as done.
   */
  datatype Dns = Refused | TakenOverThenRaises | TakenOver(propagated: bool)

  /** Everything one round of the monitor may come across; without `newPrimary` the validation cannot read the ledger. */
  datatype Round = Round(health: Health, lag: Lag, promotionCompletes: bool, dns: Dns, newPrimary: Option<seq<Row>>)

  datatype Effect = PromotionRequested | DnsFlipped | Validated(chainOk: bool)

  /** The effects of a failover, and whether it returns or raises. */
  datatype Failover = Failover(effects: seq<Effect>, completes: bool)

  predicate ExceedsLimit(lag: Lag, maxLagSeconds: int) {
    lag.Unknown? || (lag.Seconds? && lag.s > maxLagSeconds as real)
  }

  /** The lag gate lets the failover through. */
  predicate Passes(lag: Lag, maxLagSeconds: int, force: bool) {
    !lag.LagRaises? && (force || !ExceedsLimit(lag, maxLagSeconds))
  }

  /** The orchestrator validates without naming a checkpoint bucket. */
  function ChainOk(rows: seq<Row>): bool {
    ValidatePostFailover(rows, NoBucket).valid
  }

  function Orchestrate(maxLagSeconds: int, force: bool, r: Round): Failover {
    if !Passes(r.lag, maxLagSeconds, force) then Failover([], false)
    else if !r.promotionCompletes then Failover([PromotionRequested], false)
    else
      match r.dns
      case Refused => Failover([PromotionRequested], false)
      case TakenOverThenRaises => Failover([PromotionRequested, DnsFlipped], false)
      case TakenOver(_) =>
        match r.newPrimary
        case None => Failover([PromotionRequested, DnsFlipped], false)
        case Some(rows) => Failover([PromotionRequested, DnsFlipped, Validated(ChainOk(rows))], true)
  }

  /**
   The steps in order. Nothing after the promotion gates what came before: DNS follows every
   completed promotion whatever the validation will say, and a broken chain raises nothing.
   */
  method RunFailover(maxLagSeconds: int, force: bool, r: Round) returns (f: Failover)
    ensures f == Orchestrate(maxLagSeconds, force, r)
    ensures PromotionRequested in f.effects <==> Passes(r.lag, maxLagSeconds, force)
    ensures DnsFlipped in f.effects <==> PromotionRequested in f.effects && r.promotionCompletes && !r.dns.Refused?
    ensures f.effects <= [PromotionRequested, DnsFlipped, Validated(r.newPrimary.Some? && ChainOk(r.newPrimary.value))]
    ensures f.completes <==> |f.effects| == 3
  {
    hide ChainOk, ValidChain, ExceedsLimit;
    var effects: seq<Effect> := [];
    if r.lag.LagRaises? {
      return Failover(effects, false);
    }
    if ExceedsLimit(r.lag, maxLagSeconds) && !force {
      return Failover(effects, false);
    }
    effects := effects + [PromotionRequested];
    if !r.promotionCompletes {
      return Failover(effects, false);
    }
    if r.dns.Refused? {
      return Failover(effects, false);
    }
    effects := effects + [DnsFlipped];
    if r.dns.TakenOverThenRaises? || r.newPrimary.None? {
      return Failover(effects, false);
    }
    var verification := VerifyChain(r.newPrimary.value);
    effects := effects + [Validated(verification.valid)];
    ChainOkExactly(r.newPrimary.value);
    return Failover(effects, true);
  }

  lemma ChainOkExactly(rows: seq<Row>)
    ensures ChainOk(rows) <==> ValidChain(rows)
  {
    NoBreaksMeansValid(rows);
    hide ValidChain, ChainBreaks;
  }

  /**
   The validation inside a failover cannot tell a fork from the true history: whatever was
   exported before, it accepts exactly the internally consistent chains.
   */
  lemma FailoverIgnoresForks(ledger: seq<Row>, d: nat, payload: Payload, now: Instant) returns (fork: seq<Row>)
    requires ValidLedger(ledger) && d < |ledger| && payload != ledger[d].payload
    ensures DivergesAt(fork, ledger, d) && d < |fork| && ChainOk(fork)
    ensures forall rows :: ChainOk(rows) <==> ValidChain(rows)
  {
    fork := NoCheckpointAcceptsForks(ledger, d, payload, now);
    forall rows
      ensures ChainOk(rows) <==> ValidChain(rows)
    {
      ChainOkExactly(rows);
    }
  }

  // ----- The monitor -----

  /** Running, with its failure counter, or ended by an exception; and all effects so far. */
  datatype Monitor = Monitor(consecutiveFailures: int, running: bool, log: seq<Effect>)

  function Observe(threshold: int, maxLagSeconds: int, m: Monitor, r: Round): Monitor {
    if !m.running then m
    else if r.health.CheckRaises? then m.(running := false)
    else if r.health.Healthy? then m.(consecutiveFailures := 0)
    else if m.consecutiveFailures + 1 < threshold then m.(consecutiveFailures := m.consecutiveFailures + 1)
    else
      var f := Orchestrate(maxLagSeconds, false, r);
      Monitor(if f.completes then 0 else m.consecutiveFailures + 1, f.completes, m.log + f.effects)
  }

  function After(threshold: int, maxLagSeconds: int, rounds: seq<Round>): Monitor {
    if rounds == [] then Monitor(0, true, [])
    else Observe(threshold, maxLagSeconds, After(threshold, maxLagSeconds, rounds[..|rounds| - 1]), rounds[|rounds| - 1])
  }

  class PrimaryHealthMonitor {
    const failureThreshold: int
    const maxLagSeconds: int
    var consecutiveFailures: int

    constructor (failureThreshold: int, maxLagSeconds: int)
      ensures this.failureThreshold == failureThreshold && this.maxLagSeconds == maxLagSeconds
      ensures consecutiveFailures == 0
    {
      this.failureThreshold := failureThreshold;
      this.maxLagSeconds := maxLagSeconds;
      consecutiveFailures := 0;
    }

    /** The endless loop, over as many rounds as have happened so far. */
    method RunForever(rounds: seq<Round>) returns (running: bool, log: seq<Effect>)
      requires consecutiveFailures == 0
      modifies this
      ensures Monitor(consecutiveFailures, running, log) == After(failureThreshold, maxLagSeconds, rounds)
    {
      running, log := true, [];
      for i := 0 to |rounds|
        invariant running
        invariant Monitor(consecutiveFailures, running, log) == After(failureThreshold, maxLagSeconds, rounds[..i])
      {
        ghost var m := After(failureThreshold, maxLagSeconds, rounds[..i]);
        assert rounds[..i + 1][..i] == rounds[..i];
        if rounds[i].health.CheckRaises? {
          running := false;
          EndedStaysEnded(failureThreshold, maxLagSeconds, rounds, i + 1);
          return;
        }
        if rounds[i].health.Healthy? {
          consecutiveFailures := 0;
        } else {
          consecutiveFailures := consecutiveFailures + 1;
          if consecutiveFailures >= failureThreshold {
            var f := RunFailover(maxLagSeconds, false, rounds[i]);
            log := log + f.effects;
            if !f.completes {
              running := false;
              EndedStaysEnded(failureThreshold, maxLagSeconds, rounds, i + 1);
              return;
            }
            consecutiveFailures := 0;
          }
        }
      }
      assert rounds[..|rounds|] == rounds;
    }
  }

  /** Once an exception has ended the monitor, no further round has any effect. */
  lemma {:induction false} EndedStaysEnded(threshold: int, maxLagSeconds: int, rounds: seq<Round>, k: nat)
    requires k <= |rounds| && !After(threshold, maxLagSeconds, rounds[..k]).running
    ensures After(threshold, maxLagSeconds, rounds) == After(threshold, maxLagSeconds, rounds[..k])
  {
    var n := |rounds| - 1;
    if k == |rounds| {
      assert rounds[..k] == rounds;
    } else {
      assert rounds[..n][..k] == rounds[..k];
      EndedStaysEnded(threshold, maxLagSeconds, rounds[..n], k);
    }
  }

  /** The failed checks at the end of a history. */
  function Trailing(rounds: seq<Round>): nat {
    if rounds == [] || !rounds[|rounds| - 1].health.Unhealthy? then 0 else 1 + Trailing(rounds[..|rounds| - 1])
  }

  /** A threshold below 1 acts like 1: every failed check confirms an outage. */
  function Effective(threshold: int): (t: int)
    ensures t >= 1
  {
    if threshold < 1 then 1 else threshold
  }

  lemma NextModulo(x: nat, t: int)
    requires t >= 1
    ensures (x % t) + 1 < t ==> (x + 1) % t == (x % t) + 1
    ensures (x % t) + 1 >= t ==> (x + 1) % t == 0
  {
    var q, r := x / t, x % t;
    assert x == q * t + r;
    if r + 1 < t {
      ModuloUnique(x + 1, t, q, r + 1);
    } else {
      assert (q + 1) * t == q * t + t;
      ModuloUnique(x + 1, t, q + 1, 0);
    }
  }

  lemma ModuloUnique(x: nat, t: int, q: int, r: int)
    requires t >= 1 && 0 <= r < t && x == q * t + r
    ensures x % t == r
  {
    Distribute(q, x / t, t);
    SmallMultiple(q - x / t, t, x % t - r);
  }

  lemma Distribute(a: int, b: int, t: int)
    ensures (a - b) * t == a * t - b * t
  {
  }

  lemma SmallMultiple(k: int, t: int, d: int)
    requires t >= 1 && k * t == d && -t < d < t
    ensures d == 0
  {
    if k >= 1 {
      Distribute(k, 1, t);
      NonNegative(k - 1, t);
    } else if k <= -1 {
      Distribute(-1, k, t);
      NonNegative(-1 - k, t);
    }
  }

  lemma NonNegative(a: int, t: int)
    requires a >= 0 && t >= 0
    ensures a * t >= 0
  {
  }

  /** While the monitor runs, its counter is the current run of failures modulo the threshold. */
  lemma {:induction false} CounterIsTrailingRun(threshold: int, maxLagSeconds: int, rounds: seq<Round>)
    ensures var m := After(threshold, maxLagSeconds, rounds);
            m.running ==> m.consecutiveFailures == Trailing(rounds) % Effective(threshold)
  {
    if rounds != [] {
      hide Orchestrate, ExceedsLimit;
      var before := rounds[..|rounds| - 1];
      CounterIsTrailingRun(threshold, maxLagSeconds, before);
      NextModulo(Trailing(before), Effective(threshold));
      OneModulo(Effective(threshold));
    }
  }

  lemma OneModulo(t: int)
    requires t >= 1
    ensures 0 % t == 0
  {
  }

  /** The last round confirmed an outage and called the orchestrator. */
  ghost predicate OutageConfirmed(threshold: int, maxLagSeconds: int, rounds: seq<Round>)
    requires rounds != []
  {
    var m, r := After(threshold, maxLagSeconds, rounds[..|rounds| - 1]), rounds[|rounds| - 1];
    m.running && r.health.Unhealthy? && m.consecutiveFailures + 1 >= threshold
  }

  /** An outage is confirmed exactly when the run of failures is a positive multiple of the threshold. */
  lemma OutageExactly(threshold: int, maxLagSeconds: int, rounds: seq<Round>)
    requires rounds != [] && After(threshold, maxLagSeconds, rounds[..|rounds| - 1]).running
    ensures OutageConfirmed(threshold, maxLagSeconds, rounds)
       <==> Trailing(rounds) > 0 && Trailing(rounds) % Effective(threshold) == 0
  {
    var before := rounds[..|rounds| - 1];
    CounterIsTrailingRun(threshold, maxLagSeconds, before);
    NextModulo(Trailing(before), Effective(threshold));
  }

  /**
   A promotion the monitor starts follows at least `threshold` failed checks in a row and a
   measured lag within the limit; any other lag promotes nothing and ends the monitor.
   */
  lemma PromotionNeedsOutageAndSmallLag(threshold: int, maxLagSeconds: int, rounds: seq<Round>)
    requires rounds != []
    ensures var before := After(threshold, maxLagSeconds, rounds[..|rounds| - 1]);
            var after := After(threshold, maxLagSeconds, rounds);
            var r := rounds[|rounds| - 1];
            && (after.log != before.log ==>
                  && Trailing(rounds) >= Effective(threshold)
                  && r.lag.Seconds? && r.lag.s <= maxLagSeconds as real
                  && after.log[|before.log|..][0] == PromotionRequested)
            && (before.running && OutageConfirmed(threshold, maxLagSeconds, rounds) && !Passes(r.lag, maxLagSeconds, false) ==>
                  !after.running && after.log == before.log)
  {
    var before := After(threshold, maxLagSeconds, rounds[..|rounds| - 1]);
    var after := After(threshold, maxLagSeconds, rounds);
    if before.running {
      OutageExactly(threshold, maxLagSeconds, rounds);
      MultipleIsLarge(Trailing(rounds), Effective(threshold));
      if OutageConfirmed(threshold, maxLagSeconds, rounds) {
        var f := Orchestrate(maxLagSeconds, false, rounds[|rounds| - 1]);
        assert after.log == before.log + f.effects;
        assert after.log[|before.log|..] == f.effects;
      }
    }
  }

  /** The last round found the monitor running and made the run of failures a positive multiple of the threshold. */
  ghost predicate OutageNow(threshold: int, maxLagSeconds: int, rounds: seq<Round>)
    requires rounds != []
  {
    && After(threshold, maxLagSeconds, rounds[..|rounds| - 1]).running
    && Trailing(rounds) > 0 && Trailing(rounds) % Effective(threshold) == 0
  }

  /**
   What a round adds to the log, and whether the monitor survives it. An outage with a measured
   lag within the limit does start a failover; what follows the promotion depends on its
   completion, on DNS and on the validation; and nothing else is ever logged.
   */
  lemma MonitorActsExactly(threshold: int, maxLagSeconds: int, rounds: seq<Round>) returns (added: seq<Effect>)
    requires rounds != []
    ensures var before := After(threshold, maxLagSeconds, rounds[..|rounds| - 1]);
            var after := After(threshold, maxLagSeconds, rounds);
            var r := rounds[|rounds| - 1];
            && after.log == before.log + added
            && added <= [PromotionRequested, DnsFlipped, Validated(r.newPrimary.Some? && ValidatePostFailover(r.newPrimary.value, NoBucket).valid)]
            && (|added| >= 1 <==> OutageNow(threshold, maxLagSeconds, rounds) && r.lag.Seconds? && r.lag.s <= maxLagSeconds as real)
            && (|added| >= 2 <==> |added| >= 1 && r.promotionCompletes && r.dns != Refused)
            && (|added| >= 3 <==> |added| >= 2 && r.dns.TakenOver? && r.newPrimary.Some?)
            && (after.running <==> before.running && r.health != CheckRaises
                                   && (OutageNow(threshold, maxLagSeconds, rounds) ==> |added| == 3))
  {
    var before := After(threshold, maxLagSeconds, rounds[..|rounds| - 1]);
    added := [];
    if before.running {
      OutageExactly(threshold, maxLagSeconds, rounds);
      if OutageConfirmed(threshold, maxLagSeconds, rounds) {
        added := Orchestrate(maxLagSeconds, false, rounds[|rounds| - 1]).effects;
      }
    }
  }

  lemma MultipleIsLarge(x: nat, t: int)
    requires t >= 1
    ensures x > 0 && x % t == 0 ==> x >= t
  {
  }
}
