/**
 The text fed to the digest of a backtest's dataset: one line per transaction, in the order of
 (transaction id, evaluation time). The digest of that text and its UTF-8 encoding are not modelled.
 */
module Snapshot {
  import opened Sorting
  import opened Strings

  /** An evaluation time is a datetime or a value that is only rendered as text. */
  datatype When = DateTime(date: string, time: string) | Text(text: string)

  datatype Transaction = Transaction(
    transactionId: string,
    brokerId: string,
    ruleId: string,
    evaluatedAt: When,
    oldDecision: string)

  function Str(w: When): string {
    match w
    case DateTime(date, time) => date + " " + time
    case Text(text) => text
  }

  function IsoFormat(w: When): string {
    match w
    case DateTime(date, time) => date + "T" + time
    case Text(text) => text
  }

  datatype SortKey = SortKey(transactionId: string, evaluatedAt: string)

  function KeyOf(t: Transaction): SortKey {
    SortKey(t.transactionId, Str(t.evaluatedAt))
  }

  predicate KeyLeq(a: SortKey, b: SortKey) {
    if a.transactionId == b.transactionId then StringLeq(a.evaluatedAt, b.evaluatedAt)
    else StringLeq(a.transactionId, b.transactionId)
  }

  predicate TransactionLeq(a: Transaction, b: Transaction) {
    KeyLeq(KeyOf(a), KeyOf(b))
  }

  function Chunk(t: Transaction): string {
    t.transactionId + ":" + t.brokerId + ":" + t.ruleId + ":" + IsoFormat(t.evaluatedAt) + ":" + t.oldDecision + "\n"
  }

  function Lines(sorted: seq<Transaction>): string {
    if sorted == [] then "" else Lines(sorted[..|sorted| - 1]) + Chunk(sorted[|sorted| - 1])
  }

  function Preimage(transactions: seq<Transaction>): string {
    Lines(Sort(transactions, TransactionLeq))
  }

  /** A datetime is sorted by its text with a space and written in ISO format; anything else as it is. */
  lemma TimesRendered(t: Transaction)
    ensures t.evaluatedAt.DateTime? ==>
              && KeyOf(t) == SortKey(t.transactionId, t.evaluatedAt.date + " " + t.evaluatedAt.time)
              && Chunk(t) == t.transactionId + ":" + t.brokerId + ":" + t.ruleId + ":"
                             + (t.evaluatedAt.date + "T" + t.evaluatedAt.time) + ":" + t.oldDecision + "\n"
    ensures t.evaluatedAt.Text? ==>
              && KeyOf(t) == SortKey(t.transactionId, t.evaluatedAt.text)
              && Chunk(t) == t.transactionId + ":" + t.brokerId + ":" + t.ruleId + ":" + t.evaluatedAt.text + ":" + t.oldDecision + "\n"
  {
  }

  method FeedHasher(transactions: seq<Transaction>) returns (fed: string)
    ensures fed == Preimage(transactions)
  {
    var sorted := Sort(transactions, TransactionLeq);
    fed := "";
    for i := 0 to |sorted|
      invariant fed == Lines(sorted[..i])
    {
      assert sorted[..i + 1][..i] == sorted[..i];
      fed := fed + Chunk(sorted[i]);
    }
    assert sorted[..|sorted|] == sorted;
  }

  // ----- The order -----

  lemma KeyLeqOrder(a: SortKey, b: SortKey, c: SortKey)
    ensures KeyLeq(a, b) || KeyLeq(b, a)
    ensures KeyLeq(a, b) && KeyLeq(b, a) ==> a == b
    ensures KeyLeq(a, b) && KeyLeq(b, c) ==> KeyLeq(a, c)
  {
    StringLeqTotal(a.transactionId, b.transactionId);
    StringLeqTotal(b.transactionId, c.transactionId);
    StringLeqTotal(a.evaluatedAt, b.evaluatedAt);
    if KeyLeq(a, b) && KeyLeq(b, c) {
      if a.transactionId == b.transactionId == c.transactionId {
        StringLeqTransitive(a.evaluatedAt, b.evaluatedAt, c.evaluatedAt);
      } else {
        assert StringLeq(a.transactionId, a.transactionId) by { StringLeqTotal(a.transactionId, a.transactionId); }
        assert StringLeq(c.transactionId, c.transactionId) by { StringLeqTotal(c.transactionId, c.transactionId); }
        StringLeqTransitive(a.transactionId, b.transactionId, c.transactionId);
      }
    }
  }

  lemma TransactionOrder()
    ensures TotalPreorder(TransactionLeq)
  {
    forall x, y
      ensures TransactionLeq(x, y) || TransactionLeq(y, x)
    {
      KeyLeqOrder(KeyOf(x), KeyOf(y), KeyOf(y));
    }
    forall x, y, z | TransactionLeq(x, y) && TransactionLeq(y, z)
      ensures TransactionLeq(x, z)
    {
      KeyLeqOrder(KeyOf(x), KeyOf(y), KeyOf(z));
    }
  }

  /** In the order of transaction ids and, where these are equal, of rendered times. */
  ghost predicate Ascending(s: seq<Transaction>) {
    forall i, j :: 0 <= i < j < |s| ==>
      && StringLeq(s[i].transactionId, s[j].transactionId)
      && (s[i].transactionId == s[j].transactionId ==> StringLeq(Str(s[i].evaluatedAt), Str(s[j].evaluatedAt)))
  }

  /** The text lists the line of every transaction of the dataset, as often as it occurs, in ascending order. */
  lemma FedInOrder(s: seq<Transaction>) returns (r: seq<Transaction>)
    ensures multiset(r) == multiset(s) && Ascending(r) && Preimage(s) == Lines(r)
  {
    TransactionOrder();
    SortSorts(s, TransactionLeq);
    r := Sort(s, TransactionLeq);
    hide Sort, TotalPreorder, Str, StringLeq, Lines;
    forall i, j | 0 <= i < j < |r|
      ensures && StringLeq(r[i].transactionId, r[j].transactionId)
              && (r[i].transactionId == r[j].transactionId ==> StringLeq(Str(r[i].evaluatedAt), Str(r[j].evaluatedAt)))
    {
      assert TransactionLeq(r[i], r[j]);
      StringLeqTotal(r[i].transactionId, r[j].transactionId);
    }
  }

  // ----- Independence of the order of the dataset -----

  /** In either order the two are written as the same text. */
  predicate Commute(a: Transaction, b: Transaction) {
    Chunk(a) + Chunk(b) == Chunk(b) + Chunk(a)
  }

  /** Transactions that the sort cannot tell apart may come in any order. */
  ghost predicate TiesCommute(m: multiset<Transaction>) {
    forall a, b :: a in m && b in m && KeyOf(a) == KeyOf(b) ==> Commute(a, b)
  }

  lemma SameRest(s: seq<Transaction>, t: seq<Transaction>, i: nat)
    requires s != [] && i < |t| && t[i] == s[0] && multiset(s) == multiset(t)
    ensures multiset(s[..0] + s[1..]) == multiset(t[..i] + t[i + 1..])
  {
    TakeOut(s, 0);
    TakeOut(t, i);
    CancelOne(s[0], multiset(s[..0] + s[1..]), multiset(t[..i] + t[i + 1..]));
  }

  lemma {:induction false} LinesAppend(s: seq<Transaction>, t: seq<Transaction>)
    ensures Lines(s + t) == Lines(s) + Lines(t)
  {
    hide Chunk;
    if t == [] {
      assert s + t == s && Lines(s) + "" == Lines(s);
    } else {
      var n := |t| - 1;
      LinesAppend(s, t[..n]);
      assert (s + t)[..|s + t| - 1] == s + t[..n] && (s + t)[|s + t| - 1] == t[n];
      Associative(Lines(s), Lines(t[..n]), Chunk(t[n]));
    }
  }

  lemma Associative(a: string, b: string, c: string)
    ensures a + b + c == a + (b + c)
  {
  }

  lemma LinesOne(t: Transaction)
    ensures Lines([t]) == Chunk(t)
  {
    hide Chunk;
    assert [t][..0] == [];
    assert "" + Chunk(t) == Chunk(t);
  }

  /** A transaction that commutes with all before it may as well come first. */
  lemma {:induction false} MoveToFront(s: seq<Transaction>, x: Transaction)
    requires forall i :: 0 <= i < |s| ==> Commute(s[i], x)
    ensures Lines(s) + Chunk(x) == Chunk(x) + Lines(s)
  {
    if s == [] {
      assert Lines(s) == "" && "" + Chunk(x) == Chunk(x) == Chunk(x) + "";
    } else {
      var n := |s| - 1;
      var a, b, c := Lines(s[..n]), Chunk(s[n]), Chunk(x);
      assert Commute(s[n], x);
      assert Lines(s) == a + b;
      MoveToFront(s[..n], x);
      hide Chunk, Lines;
      Associative(a, b, c);
      Associative(a, c, b);
      Associative(c, a, b);
    }
  }

  lemma LinesTakenOut(s: seq<Transaction>, i: nat)
    requires i < |s| && forall j :: 0 <= j < i ==> Commute(s[j], s[i])
    ensures Lines(s) == Chunk(s[i]) + Lines(s[..i] + s[i + 1..])
  {
    hide Chunk, Commute, Lines;
    var before, x, after := s[..i], s[i], s[i + 1..];
    assert s == before + [x] + after;
    LinesAppend(before + [x], after);
    LinesAppend(before, [x]);
    LinesOne(x);
    MoveToFront(before, x);
    LinesAppend(before, after);
    Associative(Chunk(x), Lines(before), Lines(after));
  }

  lemma SortedRest(s: seq<Transaction>, i: nat)
    requires Sorted(s, TransactionLeq) && i < |s|
    ensures Sorted(s[..i] + s[i + 1..], TransactionLeq)
  {
  }

  /** Whatever stands before the smallest element in a sorted list ties with it. */
  lemma TiesBefore(a: seq<Transaction>, b: seq<Transaction>, i: nat, j: nat)
    requires Sorted(a, TransactionLeq) && Sorted(b, TransactionLeq) && multiset(a) == multiset(b) && a != []
    requires j < i < |b| && b[i] == a[0]
    ensures KeyOf(b[j]) == KeyOf(a[0])
  {
    assert b[j] in multiset(a);
    var k :| 0 <= k < |a| && a[k] == b[j];
    KeyLeqOrder(KeyOf(a[0]), KeyOf(b[j]), KeyOf(b[j]));
    assert TransactionLeq(b[j], a[0]);
    assert k > 0 ==> TransactionLeq(a[0], a[k]);
  }

  /** The smallest element can be taken out of another sorted order, and out of its text. */
  lemma TakeSmallestOut(a: seq<Transaction>, b: seq<Transaction>) returns (i: nat)
    requires Sorted(a, TransactionLeq) && Sorted(b, TransactionLeq) && multiset(a) == multiset(b) && a != []
    requires TiesCommute(multiset(b))
    ensures i < |b| && b[i] == a[0]
    ensures Lines(b) == Chunk(a[0]) + Lines(b[..i] + b[i + 1..])
  {
    hide Chunk, Commute, KeyOf, Sorted, Lines;
    assert a[0] in multiset(b);
    i :| 0 <= i < |b| && b[i] == a[0];
    forall j | 0 <= j < i
      ensures Commute(b[j], b[i])
    {
      TiesBefore(a, b, i, j);
      assert b[j] in multiset(b) && b[i] in multiset(b);
    }
    LinesTakenOut(b, i);
  }

  lemma FewerTies(s: seq<Transaction>, i: nat)
    requires i < |s| && TiesCommute(multiset(s))
    ensures TiesCommute(multiset(s[..i] + s[i + 1..]))
  {
    hide Commute, KeyOf;
    TakeOut(s, i);
    var rest := multiset(s[..i] + s[i + 1..]);
    assert forall t :: t in rest ==> t in multiset(s);
  }

  /** Two sorted orders of one dataset are written alike if ties commute. */
  lemma {:induction false} SortedTextsAgree(a: seq<Transaction>, b: seq<Transaction>)
    requires Sorted(a, TransactionLeq) && Sorted(b, TransactionLeq) && multiset(a) == multiset(b)
    requires TiesCommute(multiset(a))
    ensures Lines(a) == Lines(b)
    decreases |a|
  {
    hide Chunk, TiesCommute, Sorted, Lines;
    if a == [] {
      assert |multiset(b)| == 0;
      assert b == [];
    } else {
      var i := TakeSmallestOut(a, b);
      LinesTakenOut(a, 0);
      SameRest(a, b, i);
      SortedRest(a, 0);
      SortedRest(b, i);
      FewerTies(a, 0);
      SortedTextsAgree(a[..0] + a[1..], b[..i] + b[i + 1..]);
    }
  }

  /** If ties commute, no permutation of the dataset changes the text. */
  lemma PermutationsFeedTheSame(s: seq<Transaction>, t: seq<Transaction>)
    requires multiset(s) == multiset(t) && TiesCommute(multiset(s))
    ensures Preimage(s) == Preimage(t)
  {
    hide Chunk, Sort, KeyLeq, TiesCommute;
    TransactionOrder();
    SortSorts(s, TransactionLeq);
    SortSorts(t, TransactionLeq);
    SortedTextsAgree(Sort(s, TransactionLeq), Sort(t, TransactionLeq));
  }

  /** In particular if no two transactions have the same sort key. */
  lemma DistinctKeysFeedTheSame(s: seq<Transaction>, t: seq<Transaction>)
    requires multiset(s) == multiset(t) && forall i, j :: 0 <= i < j < |s| ==> KeyOf(s[i]) != KeyOf(s[j])
    ensures Preimage(s) == Preimage(t)
  {
    hide Chunk, Preimage, KeyOf;
    forall a, b | a in multiset(s) && b in multiset(s) && KeyOf(a) == KeyOf(b)
      ensures Commute(a, b)
    {
      var i :| 0 <= i < |s| && s[i] == a;
      var j :| 0 <= j < |s| && s[j] == b;
      assert i == j;
    }
    PermutationsFeedTheSame(s, t);
  }

  // ----- Ties that differ -----

  /** No line feed before the last character. */
  ghost predicate SingleLine(s: string) {
    forall i :: 0 <= i < |s| - 1 ==> s[i] != '\n'
  }

  ghost predicate OneLine(t: Transaction) {
    SingleLine(Chunk(t))
  }

  /** For transactions written on one line each, to commute is to be written alike. */
  lemma OneLineCommutes(a: Transaction, b: Transaction)
    requires OneLine(a) && OneLine(b)
    ensures Commute(a, b) <==> Chunk(a) == Chunk(b)
  {
    var x, y := Chunk(a), Chunk(b);
    assert |x| > 0 && |y| > 0 && x[|x| - 1] == '\n' && y[|y| - 1] == '\n';
    hide Chunk;
    if Commute(a, b) {
      var z := x + y;
      assert z[..|x|] == x;
      assert z[..|y|] == y;
      assert z[|x| - 1] == '\n' && z[|y| - 1] == '\n';
      assert forall i :: 0 <= i < |x| - 1 ==> z[i] != '\n';
      assert forall i :: 0 <= i < |y| - 1 ==> z[i] != '\n';
    }
  }

  lemma LinesAround(before: seq<Transaction>, a: Transaction, b: Transaction, after: seq<Transaction>)
    ensures Lines(before + [a] + [b] + after) == Lines(before) + (Chunk(a) + Chunk(b)) + Lines(after)
  {
    LinesOne(a);
    LinesOne(b);
    hide Chunk, Lines;
    LinesAppend(before, [a]);
    LinesAppend(before + [a], [b]);
    LinesAppend(before + [a] + [b], after);
    assert Lines(before) + Chunk(a) + Chunk(b) == Lines(before) + (Chunk(a) + Chunk(b));
  }

  /** Two orders of a dataset with a tie that does not commute feed different texts. */
  lemma TieOrderMatters(a: Transaction, b: Transaction, rest: seq<Transaction>)
    requires KeyOf(a) == KeyOf(b) && !Commute(a, b)
    ensures multiset([a, b] + rest) == multiset([b, a] + rest)
    ensures Preimage([a, b] + rest) != Preimage([b, a] + rest)
  {
    SwapFront(a, b, rest);
    TransactionOrder();
    KeyLeqOrder(KeyOf(a), KeyOf(b), KeyOf(b));
    hide Chunk, Lines, Sort, KeyLeq, KeyOf, Insert, TotalPreorder;
    var r := Sort(rest, TransactionLeq);
    SortTwo(a, b, rest);
    SortTwo(b, a, rest);
    InsertTwo(a, b, r, TransactionLeq);
    InsertTwo(b, a, r, TransactionLeq);
    InsertTwoSwapped(a, b, r, TransactionLeq);
    var p := Place(b, r, TransactionLeq);
    LinesAround(r[..p], a, b, r[p..]);
    LinesAround(r[..p], b, a, r[p..]);
    if Preimage([a, b] + rest) == Preimage([b, a] + rest) {
      SameMiddle(Lines(r[..p]), Chunk(a) + Chunk(b), Chunk(b) + Chunk(a), Lines(r[p..]));
    }
  }

  lemma SwapFront(a: Transaction, b: Transaction, rest: seq<Transaction>)
    ensures multiset([a, b] + rest) == multiset{a, b} + multiset(rest) == multiset([b, a] + rest)
  {
    assert multiset([a, b]) == multiset{a, b} == multiset([b, a]);
  }

  lemma SortTwo(a: Transaction, b: Transaction, rest: seq<Transaction>)
    ensures Sort([a, b] + rest, TransactionLeq)
         == Insert(a, Insert(b, Sort(rest, TransactionLeq), TransactionLeq), TransactionLeq)
  {
    var s := [a, b] + rest;
    assert s[1..] == [b] + rest && s[1..][1..] == rest;
  }

  lemma SameMiddle(before: string, x: string, y: string, after: string)
    requires |x| == |y| && before + x + after == before + y + after
    ensures x == y
  {
    assert (before + x + after)[|before|..|before| + |x|] == x;
    assert (before + y + after)[|before|..|before| + |y|] == y;
  }

  /** The text does not depend on the order of a dataset exactly when its ties commute. */
  lemma OrderIndependentExactly(s: seq<Transaction>)
    ensures (forall t, u :: multiset(t) == multiset(s) && multiset(u) == multiset(s) ==> Preimage(t) == Preimage(u))
       <==> TiesCommute(multiset(s))
  {
    if TiesCommute(multiset(s)) {
      hide TiesCommute, Preimage;
      forall t, u | multiset(t) == multiset(s) && multiset(u) == multiset(s)
        ensures Preimage(t) == Preimage(u)
      {
        PermutationsFeedTheSame(t, u);
      }
    } else {
      hide Preimage;
      var t, u := TwoOrders(s);
    }
  }

  lemma TwoOrders(s: seq<Transaction>) returns (t: seq<Transaction>, u: seq<Transaction>)
    requires !TiesCommute(multiset(s))
    ensures multiset(t) == multiset(s) && multiset(u) == multiset(s) && Preimage(t) != Preimage(u)
  {
    hide Chunk, KeyOf, Preimage, Commute;
    var a, b :| a in multiset(s) && b in multiset(s) && KeyOf(a) == KeyOf(b) && !Commute(a, b);
    assert a != b by { CommutesWithItself(a); }
    var rest := AsSequence(multiset(s) - multiset{a, b});
    TieOrderMatters(a, b, rest);
    SwapFront(a, b, rest);
    t, u := [a, b] + rest, [b, a] + rest;
  }

  lemma CommutesWithItself(a: Transaction)
    ensures Commute(a, a)
  {
  }

  lemma AsSequence(m: multiset<Transaction>) returns (s: seq<Transaction>)
    ensures multiset(s) == m
    decreases |m|
  {
    if |m| == 0 {
      s := [];
    } else {
      var x :| x in m;
      var rest := AsSequence(m - multiset{x});
      s := [x] + rest;
    }
  }

  // ----- The text seals the dataset -----

  /** A text made of whole lines ends in a line feed. */
  lemma LinesEnd(s: seq<Transaction>)
    requires s != []
    ensures Lines(s) != "" && Lines(s)[|Lines(s)| - 1] == '\n'
  {
    var c := Chunk(s[|s| - 1]);
    assert c[|c| - 1] == '\n';
    hide Chunk;
  }

  ghost predicate Whole(s: string) {
    s == "" || s[|s| - 1] == '\n'
  }

  /** The last line of a text is where the last transaction was written. */
  lemma LastChunk(a: string, c: string, b: string, d: string)
    requires a + c == b + d && c != "" && d != ""
    requires Whole(a) && Whole(b) && SingleLine(c) && SingleLine(d)
    ensures a == b && c == d
  {
    var z := a + c;
    assert |a| + |c| == |b| + |d|;
    assert forall i :: |a| <= i < |z| - 1 ==> z[i] == c[i - |a|];
    assert forall i :: |b| <= i < |z| - 1 ==> z[i] == d[i - |b|];
    assert a != "" ==> z[|a| - 1] == '\n';
    assert b != "" ==> z[|b| - 1] == (b + d)[|b| - 1] == '\n';
    assert |a| == |b|;
    assert z[..|a|] == a && z[..|b|] == b && z[|a|..] == c && z[|b|..] == d;
  }

  ghost predicate AllOneLine(s: seq<Transaction>) {
    forall i :: 0 <= i < |s| ==> OneLine(s[i])
  }

  lemma LastTransaction(s: seq<Transaction>, t: seq<Transaction>)
    requires s != [] && t != [] && OneLine(s[|s| - 1]) && OneLine(t[|t| - 1]) && Lines(s) == Lines(t)
    ensures Lines(s[..|s| - 1]) == Lines(t[..|t| - 1]) && Chunk(s[|s| - 1]) == Chunk(t[|t| - 1])
  {
    hide Chunk, SingleLine, Whole;
    var m, n := |s| - 1, |t| - 1;
    var a, b := Lines(s[..m]), Lines(t[..n]);
    assert Lines(s) == a + Chunk(s[m]) && Lines(t) == b + Chunk(t[n]);
    WholeLines(s[..m]);
    WholeLines(t[..n]);
    hide Lines;
    ChunkNonEmpty(s[m]);
    ChunkNonEmpty(t[n]);
    LastChunk(a, Chunk(s[m]), b, Chunk(t[n]));
  }

  lemma ChunkNonEmpty(t: Transaction)
    ensures Chunk(t) != ""
  {
  }

  lemma WholeLines(s: seq<Transaction>)
    ensures Whole(Lines(s))
  {
    if s != [] {
      LinesEnd(s);
    }
  }

  lemma {:induction false} TextDeterminesLines(s: seq<Transaction>, t: seq<Transaction>)
    requires AllOneLine(s) && AllOneLine(t) && Lines(s) == Lines(t)
    ensures Chunks(s) == Chunks(t)
  {
    if s == [] || t == [] {
      if s != [] { LinesEnd(s); }
      if t != [] { LinesEnd(t); }
    } else {
      hide Chunk, OneLine, Lines, Chunks;
      var m, n := |s| - 1, |t| - 1;
      LastTransaction(s, t);
      TextDeterminesLines(s[..m], t[..n]);
      ChunksLast(s);
      ChunksLast(t);
    }
  }

  lemma ChunksLast(s: seq<Transaction>)
    requires s != []
    ensures Chunks(s) == Chunks(s[..|s| - 1]) + [Chunk(s[|s| - 1])]
  {
    hide Chunk;
  }

  lemma SortKeepsOneLine(s: seq<Transaction>)
    requires AllOneLine(s)
    ensures AllOneLine(Sort(s, TransactionLeq)) && multiset(Sort(s, TransactionLeq)) == multiset(s)
  {
    TransactionOrder();
    SortSorts(s, TransactionLeq);
    hide OneLine, Sort, TotalPreorder;
    var a := Sort(s, TransactionLeq);
    forall i | 0 <= i < |a|
      ensures OneLine(a[i])
    {
      assert a[i] in multiset(a);
      assert a[i] in s;
    }
  }

  /**
   A text that one-line transactions feed seals them: another dataset with that text consists of
   the same lines, as often, exactly when its transactions are on one line each, too.
   */
  lemma TextSealsDataset(s: seq<Transaction>, t: seq<Transaction>)
    requires AllOneLine(t) && Preimage(s) == Preimage(t)
    ensures multiset(Chunks(s)) == multiset(Chunks(t)) <==> AllOneLine(s)
  {
    hide AllOneLine, Chunk, Chunks, Sort, Lines;
    if AllOneLine(s) {
      var a, b := Sort(s, TransactionLeq), Sort(t, TransactionLeq);
      SortKeepsOneLine(s);
      SortKeepsOneLine(t);
      TextDeterminesLines(a, b);
      SameChunks(a, s);
      SameChunks(b, t);
    } else if multiset(Chunks(s)) == multiset(Chunks(t)) {
      SameLinesAreOneLine(s, t);
    }
  }

  lemma SameLinesAreOneLine(s: seq<Transaction>, t: seq<Transaction>)
    requires AllOneLine(t) && multiset(Chunks(s)) == multiset(Chunks(t))
    ensures AllOneLine(s)
  {
    hide Chunk;
    forall i | 0 <= i < |s|
      ensures OneLine(s[i])
    {
      assert Chunks(s)[i] in multiset(Chunks(t));
      var j :| 0 <= j < |t| && Chunks(t)[j] == Chunks(s)[i];
      assert OneLine(t[j]);
    }
  }

  function UpToDecision(t: Transaction): string {
    t.transactionId + ":" + t.brokerId + ":" + t.ruleId + ":" + IsoFormat(t.evaluatedAt) + ":"
  }

  lemma ChunkWithDecision(t: Transaction, d: string)
    ensures Chunk(t.(oldDecision := d)) == UpToDecision(t) + d + "\n"
  {
  }

  lemma JoinedText(head: string, d: string, more: string)
    ensures head + (d + "\n" + more) + "\n" == (head + d + "\n") + (more + "\n")
    ensures |head + d| < |head + (d + "\n" + more) + "\n"| - 1
    ensures (head + (d + "\n" + more) + "\n")[|head + d|] == '\n'
  {
  }

  /** A transaction whose decision goes on, after a line feed, with further lines. */
  lemma MergedLine(first: Transaction, more: string) returns (t: Transaction)
    requires more != "" && more[|more| - 1] == '\n'
    ensures Chunk(t) == Chunk(first) + more && !OneLine(t)
  {
    var rest, head := more[..|more| - 1], UpToDecision(first);
    t := first.(oldDecision := first.oldDecision + "\n" + rest);
    ChunkWithDecision(first, first.oldDecision + "\n" + rest);
    ChunkWithDecision(first, first.oldDecision);
    assert first.(oldDecision := first.oldDecision) == first;
    hide Chunk, UpToDecision;
    assert more == rest + "\n";
    JoinedText(head, first.oldDecision, rest);
    assert Chunk(t)[|head + first.oldDecision|] == '\n';
  }

  lemma SortedLines(s: seq<Transaction>)
    requires |s| >= 2
    ensures var r := Sort(s, TransactionLeq);
            && |r| == |s| && Preimage(s) == Chunk(r[0]) + Lines(r[1..])
            && Lines(r[1..]) != "" && Whole(Lines(r[1..]))
  {
    var r := Sort(s, TransactionLeq);
    TransactionOrder();
    SortSorts(s, TransactionLeq);
    assert |multiset(r)| == |multiset(s)|;
    hide Sort, TotalPreorder, KeyLeq, Chunk, Lines;
    LinesEnd(r[1..]);
    LinesAppend([r[0]], r[1..]);
    LinesOne(r[0]);
    assert r == [r[0]] + r[1..];
  }

  /** With a line feed in a field, a single transaction feeds the text of any dataset of two or more. */
  lemma LineFeedHidesTransactions(s: seq<Transaction>) returns (t: Transaction)
    requires |s| >= 2
    ensures Preimage([t]) == Preimage(s) && !OneLine(t)
  {
    hide Preimage, Chunk, Lines, OneLine, Sort;
    var r := Sort(s, TransactionLeq);
    SortedLines(s);
    t := MergedLine(r[0], Lines(r[1..]));
    SingleText(t);
  }

  lemma SingleText(t: Transaction)
    ensures Preimage([t]) == Chunk(t)
  {
    LinesOne(t);
    hide Chunk, Lines;
    assert [t][1..] == [];
    assert Sort([t], TransactionLeq) == [t];
  }

  function Chunks(s: seq<Transaction>): (r: seq<string>)
    ensures |r| == |s|
    ensures forall i :: 0 <= i < |s| ==> r[i] == Chunk(s[i])
  {
    seq(|s|, i requires 0 <= i < |s| => Chunk(s[i]))
  }

  lemma ChunksTakeOut(s: seq<Transaction>, i: nat)
    requires i < |s|
    ensures multiset(Chunks(s)) == multiset{Chunk(s[i])} + multiset(Chunks(s[..i] + s[i + 1..]))
  {
    hide Chunk;
    TakeOut(Chunks(s), i);
    assert Chunks(s)[..i] + Chunks(s)[i + 1..] == Chunks(s[..i] + s[i + 1..]);
  }

  lemma {:induction false} SameChunks(s: seq<Transaction>, t: seq<Transaction>)
    requires multiset(s) == multiset(t)
    ensures multiset(Chunks(s)) == multiset(Chunks(t))
  {
    hide Chunk, Chunks;
    if s == [] {
      assert t == [];
    } else {
      assert s[0] in multiset(s);
      var i :| 0 <= i < |t| && t[i] == s[0];
      SameRest(s, t, i);
      SameChunks(s[..0] + s[1..], t[..i] + t[i + 1..]);
      ChunksTakeOut(s, 0);
      ChunksTakeOut(t, i);
    }
  }

  /** Ids, rule and decision hold no separator; a rendered time may. */
  ghost predicate Separable(t: Transaction) {
    ':' !in t.transactionId && ':' !in t.brokerId && ':' !in t.ruleId && ':' !in t.oldDecision
  }

  lemma FirstField(a: string, x: string, b: string, y: string)
    requires ':' !in a && ':' !in b && a + ":" + x == b + ":" + y
    ensures a == b && x == y
  {
    var u, v := a + ":" + x, b + ":" + y;
    assert u[|a|] == ':' && v[|b|] == ':';
    assert forall i :: 0 <= i < |a| ==> u[i] == a[i];
    assert forall i :: 0 <= i < |b| ==> v[i] == b[i];
    assert |a| == |b|;
    assert u[..|a|] == a && v[..|b|] == b && u[|a| + 1..] == x && v[|b| + 1..] == y;
  }

  lemma LastField(x: string, a: string, y: string, b: string)
    requires ':' !in a && ':' !in b && x + ":" + a == y + ":" + b
    ensures a == b && x == y
  {
    var u, v := x + ":" + a, y + ":" + b;
    assert u[|x|] == ':' && v[|y|] == ':';
    assert forall i :: |x| < i < |u| ==> u[i] == a[i - |x| - 1];
    assert forall i :: |y| < i < |v| ==> v[i] == b[i - |y| - 1];
    assert |x| == |y|;
    assert u[..|x|] == x && v[..|y|] == y && u[|x| + 1..] == a && v[|y| + 1..] == b;
  }

  /** A line determines the transaction's fields as long as no field but the time contains the separator. */
  lemma ChunkDeterminesFields(a: Transaction, b: Transaction)
    requires Separable(a) && Separable(b) && Chunk(a) == Chunk(b)
    ensures a.transactionId == b.transactionId && a.brokerId == b.brokerId && a.ruleId == b.ruleId
    ensures IsoFormat(a.evaluatedAt) == IsoFormat(b.evaluatedAt) && a.oldDecision == b.oldDecision
  {
    var ra, rb := Tail3(a), Tail3(b);
    ChunkNested(a);
    ChunkNested(b);
    hide Chunk, IsoFormat;
    var na, nb := Nested(a), Nested(b);
    assert na == (na + "\n")[..|na|] && nb == (nb + "\n")[..|nb|];
    FirstField(a.transactionId, Tail1(a), b.transactionId, Tail1(b));
    FirstField(a.brokerId, Tail2(a), b.brokerId, Tail2(b));
    FirstField(a.ruleId, ra, b.ruleId, rb);
    LastField(IsoFormat(a.evaluatedAt), a.oldDecision, IsoFormat(b.evaluatedAt), b.oldDecision);
  }

  function Tail3(t: Transaction): string {
    IsoFormat(t.evaluatedAt) + ":" + t.oldDecision
  }

  function Tail2(t: Transaction): string {
    t.ruleId + ":" + Tail3(t)
  }

  function Tail1(t: Transaction): string {
    t.brokerId + ":" + Tail2(t)
  }

  function Nested(t: Transaction): string {
    t.transactionId + ":" + Tail1(t)
  }

  lemma ChunkNested(t: Transaction)
    ensures Chunk(t) == Nested(t) + "\n"
  {
    hide IsoFormat;
    var iso := IsoFormat(t.evaluatedAt);
    assert Chunk(t) == t.transactionId + ":" + t.brokerId + ":" + t.ruleId + ":" + (iso + ":" + t.oldDecision) + "\n";
    assert Chunk(t) == t.transactionId + ":" + t.brokerId + ":" + (t.ruleId + ":" + Tail3(t)) + "\n";
    assert Chunk(t) == t.transactionId + ":" + (t.brokerId + ":" + Tail2(t)) + "\n";
  }

  /** Another pair of ids with which the same line is written. */
  ghost predicate Twin(t: Transaction, transactionId: string, brokerId: string) {
    && (transactionId != t.transactionId || brokerId != t.brokerId)
    && Chunk(t.(transactionId := transactionId, brokerId := brokerId)) == Chunk(t)
  }

  function Ids(transactionId: string, brokerId: string): string {
    transactionId + ":" + brokerId
  }

  lemma ChunkFromIds(t: Transaction)
    ensures Chunk(t) == Ids(t.transactionId, t.brokerId) + (":" + Tail2(t) + "\n")
  {
    ChunkNested(t);
    hide Chunk, IsoFormat, Tail2;
  }

  lemma TwinExactly(t: Transaction, transactionId: string, brokerId: string)
    ensures Twin(t, transactionId, brokerId)
       <==> (transactionId != t.transactionId || brokerId != t.brokerId)
            && Ids(transactionId, brokerId) == Ids(t.transactionId, t.brokerId)
  {
    var u := t.(transactionId := transactionId, brokerId := brokerId);
    ChunkFromIds(t);
    ChunkFromIds(u);
    assert Tail2(u) == Tail2(t);
    hide Chunk, Tail2, Ids;
    var x, y, rest := Ids(transactionId, brokerId), Ids(t.transactionId, t.brokerId), ":" + Tail2(t) + "\n";
    if x + rest == y + rest {
      assert |x| == |y|;
      assert x == (x + rest)[..|x|] && y == (y + rest)[..|y|];
    }
  }

  lemma SplitAtSeparator(s: string) returns (u: string, v: string)
    requires ':' in s
    ensures s == u + ":" + v
  {
    var i :| 0 <= i < |s| && s[i] == ':';
    u, v := s[..i], s[i + 1..];
  }

  /** Without a separator in either id there is only one place to part them. */
  lemma IdsDetermined(a: string, b: string, c: string, d: string)
    requires ':' !in a && ':' !in b && Ids(a, b) == Ids(c, d)
    ensures a == c && b == d
  {
    var u, v := Ids(a, b), Ids(c, d);
    assert u[|a|] == ':' && v[|c|] == ':';
    assert forall i :: 0 <= i < |a| ==> u[i] == a[i];
    assert forall i :: |a| < i < |u| ==> u[i] == b[i - |a| - 1];
    assert |c| == |a|;
    assert u[..|a|] == a && v[..|c|] == c && u[|a| + 1..] == b && v[|c| + 1..] == d;
  }

  /** A transaction shares its line with one of other ids exactly when one of its ids contains the separator. */
  lemma SeparatorHidesFields(t: Transaction)
    ensures (exists a, b :: Twin(t, a, b)) <==> ':' in t.transactionId || ':' in t.brokerId
  {
    hide Twin;
    if a, b :| Twin(t, a, b) {
      TwinExactly(t, a, b);
      if ':' !in t.transactionId && ':' !in t.brokerId {
        IdsDetermined(t.transactionId, t.brokerId, a, b);
      }
    }
    if ':' in t.transactionId {
      var u, v := SplitAtSeparator(t.transactionId);
      assert Ids(u, v + ":" + t.brokerId) == Ids(t.transactionId, t.brokerId);
      TwinExactly(t, u, v + ":" + t.brokerId);
    } else if ':' in t.brokerId {
      var u, v := SplitAtSeparator(t.brokerId);
      assert Ids(t.transactionId + ":" + u, v) == Ids(t.transactionId, t.brokerId);
      TwinExactly(t, t.transactionId + ":" + u, v);
    }
  }
}
