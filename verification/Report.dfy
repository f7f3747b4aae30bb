/**
 The impact report of a backtest: classifying each replayed transaction by its old and new
 decision, the summary counts, and the breakdown by broker. Rates are exact and then rounded to
 two decimals, ties to even.
 */
module Report {
  import opened Strings
  import opened Sorting
  import opened Candidate

  datatype Change = UnchangedPass | UnchangedFail | NewFailure | NewlyPassing | UndefinedNow

  function Classify(before: Decision, now: Decision): (c: Change)
    ensures c == UndefinedNow <==> now == Flagged
    ensures c == NewFailure <==> now == Deny && before in {Allow, Flagged}
    ensures c == NewlyPassing <==> now == Allow && before == Deny
    ensures c == UnchangedFail <==> now == Deny && before == Deny
    ensures c == UnchangedPass <==> now == Allow && before in {Allow, Flagged}
  {
    assert (before.Allow? || before.Deny? || before.Flagged?) && (now.Allow? || now.Deny? || now.Flagged?);
    if now == Flagged then UndefinedNow
    else if before == Deny && now == Deny then UnchangedFail
    else if before != Deny && now != Deny then UnchangedPass
    else if before != Deny && now == Deny then NewFailure
    else NewlyPassing
  }

  /** One replayed transaction. */
  datatype Outcome = Outcome(brokerId: string, before: Decision, now: Decision) {
    function Kind(): Change {
      Classify(before, now)
    }
  }

  /** What a count of the report counts. */
  datatype Criterion = Everything | OfKind(kind: Change) | FailedBefore | FailsNow | FailedBeforeUndefinedNow

  predicate Matches(o: Outcome, c: Criterion) {
    match c
    case Everything => true
    case OfKind(kind) => o.Kind() == kind
    case FailedBefore => o.before == Deny
    case FailsNow => o.now == Deny
    case FailedBeforeUndefinedNow => o.before == Deny && o.now == Flagged
  }

  function Count(outcomes: seq<Outcome>, c: Criterion): nat {
    if outcomes == [] then 0
    else Count(outcomes[..|outcomes| - 1], c) + (if Matches(outcomes[|outcomes| - 1], c) then 1 else 0)
  }

  /** The rows of one broker's group. */
  function Group(outcomes: seq<Outcome>, brokerId: string): seq<Outcome> {
    if outcomes == [] then []
    else
      var o := outcomes[|outcomes| - 1];
      Group(outcomes[..|outcomes| - 1], brokerId) + (if o.brokerId == brokerId then [o] else [])
  }

  /** The group keys, sorted and each once. */
  function Brokers(outcomes: seq<Outcome>): seq<string> {
    if outcomes == [] then []
    else
      var rest, b := Brokers(outcomes[..|outcomes| - 1]), outcomes[|outcomes| - 1].brokerId;
      if b in rest then rest else Insert(b, rest, StringLeq)
  }

  datatype Breakdown = Breakdown(brokerId: string, total: nat, newFailures: nat, newlyPassing: nat, failureRate: real)

  function Percent(part: nat, whole: nat): real {
    if whole == 0 then 0.0 else part as real / whole as real * 100.0
  }

  /** To the nearest hundredth, counted in hundredths. */
  function Hundredths(x: real): int {
    var whole := (x * 100.0).Floor;
    var part := x * 100.0 - whole as real;
    if part < 0.5 || (part == 0.5 && whole % 2 == 0) then whole else whole + 1
  }

  /** `round(x, 2)`. */
  function Round(x: real): real {
    Hundredths(x) as real / 100.0
  }

  function BreakdownOf(group: seq<Outcome>, brokerId: string): Breakdown {
    Breakdown(brokerId, |group|, Count(group, OfKind(NewFailure)), Count(group, OfKind(NewlyPassing)),
              Round(Percent(Count(group, FailsNow), |group|)))
  }

  function Breakdowns(outcomes: seq<Outcome>, brokers: seq<string>): seq<Breakdown> {
    if brokers == [] then []
    else
      var b := brokers[|brokers| - 1];
      Breakdowns(outcomes, brokers[..|brokers| - 1]) + [BreakdownOf(Group(outcomes, b), b)]
  }

  predicate HigherRate(a: Breakdown, b: Breakdown) {
    a.failureRate >= b.failureRate
  }

  datatype Summary = Summary(
    total: nat,
    oldFailCount: nat,
    newFailCount: nat,
    oldFailureRate: real,
    newFailureRate: real,
    deltaFailureRate: real,
    newFailures: nat,
    newlyPassing: nat,
    undefinedCount: nat,
    unchangedCount: nat,
    brokers: seq<Breakdown>)

  function Summarize(outcomes: seq<Outcome>): Summary {
    var total := |outcomes|;
    var oldRate, newRate := Percent(Count(outcomes, FailedBefore), total), Percent(Count(outcomes, FailsNow), total);
    Summary(total, Count(outcomes, FailedBefore), Count(outcomes, FailsNow),
            Round(oldRate), Round(newRate), Round(newRate - oldRate),
            Count(outcomes, OfKind(NewFailure)), Count(outcomes, OfKind(NewlyPassing)),
            Count(outcomes, OfKind(UndefinedNow)),
            Count(outcomes, OfKind(UnchangedPass)) + Count(outcomes, OfKind(UnchangedFail)),
            Sort(Breakdowns(outcomes, Brokers(outcomes)), HigherRate))
  }

  method BuildSummary(outcomes: seq<Outcome>) returns (s: Summary)
    ensures s == Summarize(outcomes)
  {
    hide Count, Round, Group, BreakdownOf, Sort;
    var total := |outcomes|;
    if total == 0 {
      EmptySummary();
      return Summary(0, 0, 0, 0.0, 0.0, 0.0, 0, 0, 0, 0, []);
    }
    var breakdown: seq<Breakdown> := [];
    var brokers := Brokers(outcomes);
    for i := 0 to |brokers|
      invariant breakdown == Breakdowns(outcomes, brokers[..i])
    {
      assert brokers[..i + 1][..i] == brokers[..i];
      var group := Group(outcomes, brokers[i]);
      breakdown := breakdown + [BreakdownOf(group, brokers[i])];
    }
    assert brokers[..|brokers|] == brokers;
    breakdown := Sort(breakdown, HigherRate);
    var oldFail, newFail := Count(outcomes, FailedBefore), Count(outcomes, FailsNow);
    var oldRate, newRate := Percent(oldFail, total), Percent(newFail, total);
    s := Summary(total, oldFail, newFail, Round(oldRate), Round(newRate), Round(newRate - oldRate),
                 Count(outcomes, OfKind(NewFailure)), Count(outcomes, OfKind(NewlyPassing)),
                 Count(outcomes, OfKind(UndefinedNow)),
                 Count(outcomes, OfKind(UnchangedPass)) + Count(outcomes, OfKind(UnchangedFail)), breakdown);
  }

  lemma EmptySummary()
    ensures Summarize([]) == Summary(0, 0, 0, 0.0, 0.0, 0.0, 0, 0, 0, 0, [])
  {
    hide Round, Percent, Sort;
    assert Percent(0, 0) == 0.0 by { NothingOfNothing(); }
    assert Round(0.0) == 0.0 by { NothingOfNothing(); }
    assert Sort<Breakdown>([], HigherRate) == [] by { NothingToSort(); }
  }

  lemma NothingOfNothing()
    ensures Percent(0, 0) == 0.0 && Round(0.0) == 0.0
  {
  }

  lemma NothingToSort()
    ensures Sort<Breakdown>([], HigherRate) == []
  {
  }

  // ----- The figures add up -----

  /** Every transaction is in exactly one of the four figures, and the fail counts differ by what changed sides. */
  lemma {:induction false} FiguresAddUp(outcomes: seq<Outcome>)
    ensures |outcomes| == Count(outcomes, OfKind(NewFailure)) + Count(outcomes, OfKind(NewlyPassing))
                          + Count(outcomes, OfKind(UndefinedNow))
                          + Count(outcomes, OfKind(UnchangedPass)) + Count(outcomes, OfKind(UnchangedFail))
    ensures Count(outcomes, FailsNow) - Count(outcomes, FailedBefore)
         == Count(outcomes, OfKind(NewFailure)) - Count(outcomes, OfKind(NewlyPassing))
            - Count(outcomes, FailedBeforeUndefinedNow)
  {
    if outcomes != [] {
      FiguresAddUp(outcomes[..|outcomes| - 1]);
    }
  }

  /** A count over all groups of the given brokers. */
  function GroupCounts(outcomes: seq<Outcome>, brokers: seq<string>, c: Criterion): nat {
    if brokers == [] then 0
    else
      GroupCounts(outcomes, brokers[..|brokers| - 1], c)
      + Count(Group(outcomes, brokers[|brokers| - 1]), c)
  }

  ghost predicate Distinct(s: seq<string>) {
    forall i, j :: 0 <= i < j < |s| ==> s[i] != s[j]
  }

  lemma CountOneMore(s: seq<Outcome>, o: Outcome, c: Criterion)
    ensures Count(s + [o], c) == Count(s, c) + (if Matches(o, c) then 1 else 0)
  {
    var t := s + [o];
    assert t[..|t| - 1] == s;
  }

  /** One more transaction counts in the group of its own broker and nowhere else. */
  lemma {:induction false} GroupCountsOneMore(outcomes: seq<Outcome>, brokers: seq<string>, c: Criterion)
    requires outcomes != [] && Distinct(brokers)
    ensures var o := outcomes[|outcomes| - 1];
            GroupCounts(outcomes, brokers, c)
            == GroupCounts(outcomes[..|outcomes| - 1], brokers, c)
               + (if Matches(o, c) && o.brokerId in brokers then 1 else 0)
  {
    if brokers != [] {
      var n := |brokers| - 1;
      var o := outcomes[|outcomes| - 1];
      GroupCountsOneMore(outcomes, brokers[..n], c);
      CountOneMore(Group(outcomes[..|outcomes| - 1], brokers[n]), o, c);
      assert Group(outcomes[..|outcomes| - 1], brokers[n]) + [] == Group(outcomes[..|outcomes| - 1], brokers[n]);
      assert o.brokerId in brokers <==> o.brokerId in brokers[..n] || o.brokerId == brokers[n];
    }
  }

  lemma {:induction false} NoGroups(brokers: seq<string>, c: Criterion)
    ensures GroupCounts([], brokers, c) == 0
  {
    if brokers != [] {
      NoGroups(brokers[..|brokers| - 1], c);
    }
  }

  lemma {:induction false} GroupsPartition(outcomes: seq<Outcome>, brokers: seq<string>, c: Criterion)
    requires Distinct(brokers) && forall i :: 0 <= i < |outcomes| ==> outcomes[i].brokerId in brokers
    ensures GroupCounts(outcomes, brokers, c) == Count(outcomes, c)
  {
    if outcomes == [] {
      NoGroups(brokers, c);
    } else {
      GroupsPartition(outcomes[..|outcomes| - 1], brokers, c);
      GroupCountsOneMore(outcomes, brokers, c);
    }
  }

  lemma {:induction false} BrokersCover(outcomes: seq<Outcome>)
    ensures Distinct(Brokers(outcomes))
    ensures forall i :: 0 <= i < |outcomes| ==> outcomes[i].brokerId in Brokers(outcomes)
  {
    if outcomes != [] {
      var n := |outcomes| - 1;
      var rest, b := Brokers(outcomes[..n]), outcomes[n].brokerId;
      BrokersCover(outcomes[..n]);
      if b !in rest {
        InsertNew(b, rest);
      }
      forall i | 0 <= i < |outcomes|
        ensures outcomes[i].brokerId in Brokers(outcomes)
      {
        if i < n {
          assert outcomes[..n][i].brokerId in rest;
        }
      }
    }
  }

  lemma InsertNew(b: string, s: seq<string>)
    requires Distinct(s) && b !in s
    ensures Distinct(Insert(b, s, StringLeq))
    ensures forall x :: x in Insert(b, s, StringLeq) <==> x == b || x in s
  {
    var p := Place(b, s, StringLeq);
    PutInBetween(s, p, b);
  }

  lemma PutInBetween(s: seq<string>, p: nat, b: string)
    requires p <= |s| && Distinct(s) && b !in s
    ensures Distinct(s[..p] + [b] + s[p..])
    ensures forall x :: x in s[..p] + [b] + s[p..] <==> x == b || x in s
  {
    var t := s[..p] + [b] + s[p..];
    forall i, j | 0 <= i < j < |t|
      ensures t[i] != t[j]
    {
      var k, l := if i < p then i else i - 1, if j < p then j else j - 1;
      assert i != p ==> t[i] == s[k];
      assert j != p ==> t[j] == s[l];
    }
    forall x
      ensures x in t <==> x == b || x in s
    {
      assert x in s <==> x in s[..p] || x in s[p..] by { assert s == s[..p] + s[p..]; }
    }
  }

  /** The sums of the breakdown's columns. */
  datatype Totals = Totals(total: nat, newFailures: nat, newlyPassing: nat)

  function Add(t: Totals, b: Breakdown): Totals {
    Totals(t.total + b.total, t.newFailures + b.newFailures, t.newlyPassing + b.newlyPassing)
  }

  function SumOf(s: seq<Breakdown>): Totals {
    if s == [] then Totals(0, 0, 0) else Add(SumOf(s[..|s| - 1]), s[|s| - 1])
  }

  lemma {:induction false} SumOfAppend(a: seq<Breakdown>, b: seq<Breakdown>)
    ensures SumOf(a + b) == Totals(SumOf(a).total + SumOf(b).total,
                                   SumOf(a).newFailures + SumOf(b).newFailures,
                                   SumOf(a).newlyPassing + SumOf(b).newlyPassing)
  {
    if b == [] {
      assert a + b == a;
    } else {
      var n := |b| - 1;
      assert (a + b)[..|a| + n] == a + b[..n];
      SumOfAppend(a, b[..n]);
    }
  }

  lemma SumOfOne(x: Breakdown)
    ensures SumOf([x]) == Add(Totals(0, 0, 0), x)
  {
    assert [x][..0] == [];
  }

  lemma SumOfBetween(a: seq<Breakdown>, x: Breakdown, b: seq<Breakdown>)
    ensures SumOf(a + [x] + b) == Add(SumOf(a + b), x)
  {
    SumOfOne(x);
    hide SumOf;
    SumOfAppend(a, b);
    SumOfAppend(a, [x]);
    SumOfAppend(a + [x], b);
  }

  lemma SumOfInsert(x: Breakdown, s: seq<Breakdown>)
    ensures SumOf(Insert(x, s, HigherRate)) == Add(SumOf(s), x)
  {
    hide SumOf, Place, Add;
    var p := Place(x, s, HigherRate);
    assert s == s[..p] + s[p..];
    SumOfBetween(s[..p], x, s[p..]);
  }

  lemma SumOfFirst(s: seq<Breakdown>)
    requires s != []
    ensures SumOf(s) == Add(SumOf(s[1..]), s[0])
  {
    SumOfAppend([s[0]], s[1..]);
    assert [s[0]] + s[1..] == s && [s[0]][..0] == [];
  }

  /** Sorting the breakdown by failure rate loses and adds nothing. */
  lemma {:induction false} SumOfSorted(s: seq<Breakdown>)
    ensures SumOf(Sort(s, HigherRate)) == SumOf(s)
  {
    if s != [] {
      hide Insert, HigherRate, Add;
      SumOfSorted(s[1..]);
      SumOfInsert(s[0], Sort(s[1..], HigherRate));
      SumOfFirst(s);
    }
  }

  lemma {:induction false} CountEverything(s: seq<Outcome>)
    ensures Count(s, Everything) == |s|
  {
    if s != [] {
      CountEverything(s[..|s| - 1]);
    }
  }

  lemma {:induction false} SumOfBreakdowns(outcomes: seq<Outcome>, brokers: seq<string>)
    ensures SumOf(Breakdowns(outcomes, brokers))
         == Totals(GroupCounts(outcomes, brokers, Everything), GroupCounts(outcomes, brokers, OfKind(NewFailure)),
                   GroupCounts(outcomes, brokers, OfKind(NewlyPassing)))
  {
    if brokers != [] {
      var n := |brokers| - 1;
      SumOfBreakdowns(outcomes, brokers[..n]);
      CountEverything(Group(outcomes, brokers[n]));
      var all := Breakdowns(outcomes, brokers);
      assert all[..|all| - 1] == Breakdowns(outcomes, brokers[..n]);
    }
  }

  /** The broker figures sum to the overall figures, every figure of the summary included in the balance. */
  lemma SummaryBalances(outcomes: seq<Outcome>)
    ensures var s := Summarize(outcomes);
            && SumOf(s.brokers) == Totals(s.total, s.newFailures, s.newlyPassing)
            && s.total == s.newFailures + s.newlyPassing + s.undefinedCount + s.unchangedCount
            && s.newFailCount - s.oldFailCount
               == s.newFailures - s.newlyPassing - Count(outcomes, FailedBeforeUndefinedNow)
  {
    var brokers := Brokers(outcomes);
    BrokersCover(outcomes);
    SumOfSorted(Breakdowns(outcomes, brokers));
    SumOfBreakdowns(outcomes, brokers);
    GroupsPartition(outcomes, brokers, Everything);
    GroupsPartition(outcomes, brokers, OfKind(NewFailure));
    GroupsPartition(outcomes, brokers, OfKind(NewlyPassing));
    CountEverything(outcomes);
    FiguresAddUp(outcomes);
  }

  // ----- Rates -----

  lemma HundredthsNear(x: real)
    ensures 100.0 * x - 0.5 <= Hundredths(x) as real <= 100.0 * x + 0.5
  {
  }

  /** A reported rate is 100 times the share it is named for, up to half a hundredth. */
  ghost predicate RateOf(rate: real, part: nat, whole: nat) {
    Near(whole as real, rate, 100.0 * part as real)
  }

  /** `n * x` is `y` up to half a hundredth for each of the n. */
  ghost predicate Near(n: real, x: real, y: real) {
    -0.005 * n <= n * x - y <= 0.005 * n
  }

  lemma Product(a: real, b: real)
    requires a >= 0.0 && b >= 0.0
    ensures a * b >= 0.0
  {
  }

  lemma Within(n: real, x: real, y: real)
    requires n >= 0.0 && y - 0.005 <= x <= y + 0.005
    ensures Near(n, x, n * y)
  {
    Product(n, x - y + 0.005);
    Product(n, 0.005 - (x - y));
  }

  lemma PercentTimesWhole(part: nat, whole: nat)
    requires whole > 0
    ensures whole as real * Percent(part, whole) == 100.0 * part as real
  {
    var share := part as real / whole as real;
    assert whole as real * share == part as real;
    assert whole as real * (share * 100.0) == 100.0 * (whole as real * share);
  }

  lemma RoundedRate(part: nat, whole: nat)
    requires part <= whole
    ensures RateOf(Round(Percent(part, whole)), part, whole)
  {
    var p := Percent(part, whole);
    HundredthsNear(p);
    assert p - 0.005 <= Round(p) <= p + 0.005 by { hide Hundredths, Percent; }
    hide Round, Percent, Near;
    if whole > 0 {
      Within(whole as real, Round(p), p);
      PercentTimesWhole(part, whole);
    } else {
      Within(0.0, Round(p), p);
      assert 0.0 * p == 0.0;
    }
  }

  /** The overall rates are those of the transactions that failed before and fail now. */
  lemma RatesExactly(outcomes: seq<Outcome>)
    ensures var s := Summarize(outcomes);
            && RateOf(s.oldFailureRate, s.oldFailCount, s.total)
            && RateOf(s.newFailureRate, s.newFailCount, s.total)
            && s.oldFailCount == Count(outcomes, FailedBefore) && s.newFailCount == Count(outcomes, FailsNow)
  {
    FewerThanAll(outcomes, FailedBefore);
    FewerThanAll(outcomes, FailsNow);
    hide Percent, Count, Round, Breakdowns, Brokers, Sort, RateOf;
    RoundedRate(Count(outcomes, FailedBefore), |outcomes|);
    RoundedRate(Count(outcomes, FailsNow), |outcomes|);
  }

  /** A line of the breakdown counts its own broker's transactions, and its rate is that of those that fail now. */
  ghost predicate BrokerFigures(outcomes: seq<Outcome>, b: Breakdown) {
    var group := Group(outcomes, b.brokerId);
    && b.total == |group| && b.newFailures == Count(group, OfKind(NewFailure))
    && b.newlyPassing == Count(group, OfKind(NewlyPassing))
    && RateOf(b.failureRate, Count(group, FailsNow), |group|)
  }

  lemma BreakdownFigures(outcomes: seq<Outcome>, broker: string)
    ensures BrokerFigures(outcomes, BreakdownOf(Group(outcomes, broker), broker))
  {
    var group := Group(outcomes, broker);
    FewerThanAll(group, FailsNow);
    hide Percent, Count, Round, Group, RateOf;
    RoundedRate(Count(group, FailsNow), |group|);
  }

  lemma BrokerFiguresExactly(outcomes: seq<Outcome>)
    ensures forall b :: b in Summarize(outcomes).brokers ==> BrokerFigures(outcomes, b)
  {
    forall b | b in Summarize(outcomes).brokers
      ensures BrokerFigures(outcomes, b)
    {
      ListedBroker(outcomes, b);
    }
  }

  lemma ListedBroker(outcomes: seq<Outcome>, b: Breakdown)
    requires b in Sort(Breakdowns(outcomes, Brokers(outcomes)), HigherRate)
    ensures BrokerFigures(outcomes, b)
  {
    var brokers := Brokers(outcomes);
    var all := Breakdowns(outcomes, brokers);
    SortSorts(all, HigherRate);
    hide BrokerFigures, Breakdowns, Brokers, Sort;
    assert b in multiset(Sort(all, HigherRate));
    assert b in multiset(all);
    var i :| 0 <= i < |all| && all[i] == b;
    if brokers == [] {
      NoBreakdowns(outcomes);
    } else {
      BreakdownAt(outcomes, brokers, 0);
      BreakdownAt(outcomes, brokers, i);
      BreakdownFigures(outcomes, brokers[i]);
    }
  }

  lemma NoBreakdowns(outcomes: seq<Outcome>)
    ensures Breakdowns(outcomes, []) == []
  {
  }

  lemma {:induction false} FewerThanAll(outcomes: seq<Outcome>, c: Criterion)
    ensures Count(outcomes, c) <= |outcomes|
  {
    if outcomes != [] {
      FewerThanAll(outcomes[..|outcomes| - 1], c);
    }
  }

  /** A share of 0 to 100 percent. */
  lemma PercentInRange(part: nat, whole: nat)
    requires part <= whole
    ensures 0.0 <= Percent(part, whole) <= 100.0
  {
    if whole > 0 {
      var share := part as real / whole as real;
      assert share * whole as real == part as real;
      assert 0.0 <= share <= 1.0;
    }
  }

  /**
   The reported change of the failure rate differs from the difference of the reported rates by
   at most one hundredth, and all rates are within their range.
   */
  lemma RatesFitTogether(outcomes: seq<Outcome>)
    ensures var s := Summarize(outcomes);
            && -0.01 <= s.deltaFailureRate - (s.newFailureRate - s.oldFailureRate) <= 0.01
            && 0.0 <= s.oldFailureRate <= 100.0 && 0.0 <= s.newFailureRate <= 100.0
  {
    var total := |outcomes|;
    FewerThanAll(outcomes, FailedBefore);
    FewerThanAll(outcomes, FailsNow);
    PercentInRange(Count(outcomes, FailedBefore), total);
    PercentInRange(Count(outcomes, FailsNow), total);
    hide Percent, Count, Round, Breakdowns, Brokers, Sort;
    var oldRate, newRate := Percent(Count(outcomes, FailedBefore), total), Percent(Count(outcomes, FailsNow), total);
    RoundedDifference(oldRate, newRate);
    RoundInRange(oldRate);
    RoundInRange(newRate);
  }

  lemma RoundedDifference(x: real, y: real)
    ensures -0.01 <= Round(y - x) - (Round(y) - Round(x)) <= 0.01
  {
    hide Hundredths;
    HundredthsNear(x);
    HundredthsNear(y);
    HundredthsNear(y - x);
    var gap := Hundredths(y - x) - (Hundredths(y) - Hundredths(x));
    assert -1.5 <= gap as real <= 1.5;
    assert -1 <= gap <= 1;
  }

  lemma RoundInRange(x: real)
    requires 0.0 <= x <= 100.0
    ensures 0.0 <= Round(x) <= 100.0
  {
    hide Hundredths;
    HundredthsNear(x);
  }

  predicate EarlierName(a: Breakdown, b: Breakdown) {
    StringLeq(a.brokerId, b.brokerId)
  }

  lemma StringOrder()
    ensures TotalPreorder(StringLeq)
  {
    forall x, y
      ensures StringLeq(x, y) || StringLeq(y, x)
    {
      StringLeqTotal(x, y);
    }
    forall x, y, z | StringLeq(x, y) && StringLeq(y, z)
      ensures StringLeq(x, z)
    {
      StringLeqTransitive(x, y, z);
    }
  }

  lemma {:induction false} BrokersSorted(outcomes: seq<Outcome>)
    ensures Sorted(Brokers(outcomes), StringLeq)
  {
    if outcomes != [] {
      var n := |outcomes| - 1;
      BrokersSorted(outcomes[..n]);
      StringOrder();
      hide Insert, StringLeq;
      InsertSorted(outcomes[n].brokerId, Brokers(outcomes[..n]), StringLeq);
    }
  }

  lemma {:induction false} BreakdownAt(outcomes: seq<Outcome>, brokers: seq<string>, i: nat)
    requires i < |brokers|
    ensures |Breakdowns(outcomes, brokers)| == |brokers|
    ensures Breakdowns(outcomes, brokers)[i] == BreakdownOf(Group(outcomes, brokers[i]), brokers[i])
  {
    hide BreakdownOf;
    var n := |brokers| - 1;
    if n > 0 {
      BreakdownAt(outcomes, brokers[..n], if i < n then i else 0);
    }
  }

  /** The breakdown is ranked by reported failure rate, highest first, and by name where rates are equal. */
  lemma BrokersRanked(outcomes: seq<Outcome>)
    ensures var r := Summarize(outcomes).brokers;
            forall i, j :: 0 <= i < j < |r| ==>
              || r[i].failureRate > r[j].failureRate
              || (r[i].failureRate == r[j].failureRate && StringLeq(r[i].brokerId, r[j].brokerId))
  {
    var brokers := Brokers(outcomes);
    var all := Breakdowns(outcomes, brokers);
    BrokersSorted(outcomes);
    forall i, j | 0 <= i < j < |all|
      ensures EarlierName(all[i], all[j])
    {
      hide Breakdowns, Brokers, StringLeq;
      assert |brokers| > 0;
      BreakdownAt(outcomes, brokers, 0);
      BreakdownAt(outcomes, brokers, i);
      BreakdownAt(outcomes, brokers, j);
    }
    hide Breakdowns, Brokers, StringLeq, Sort;
    SortIsStable(all, HigherRate, EarlierName);
  }
}
