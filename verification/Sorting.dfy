/** The language's stable `sorted`, by a comparison that may consider different elements equal. */
module Sorting {

  ghost predicate TotalPreorder<T(!new)>(leq: (T, T) -> bool) {
    && (forall x, y :: leq(x, y) || leq(y, x))
    && (forall x, y, z :: leq(x, y) && leq(y, z) ==> leq(x, z))
  }

  ghost predicate Sorted<T>(s: seq<T>, leq: (T, T) -> bool) {
    forall i, j :: 0 <= i < j < |s| ==> leq(s[i], s[j])
  }

  /** Where an element goes that came before all of `s`: in front of the first one that is not smaller. */
  function Place<T>(x: T, s: seq<T>, leq: (T, T) -> bool): (p: nat)
    ensures p <= |s|
    ensures forall i :: 0 <= i < p ==> !leq(x, s[i])
    ensures p < |s| ==> leq(x, s[p])
  {
    if s == [] || leq(x, s[0]) then 0 else 1 + Place(x, s[1..], leq)
  }

  function Insert<T>(x: T, s: seq<T>, leq: (T, T) -> bool): seq<T> {
    var p := Place(x, s, leq);
    s[..p] + [x] + s[p..]
  }

  function Sort<T>(s: seq<T>, leq: (T, T) -> bool): seq<T> {
    if s == [] then [] else Insert(s[0], Sort(s[1..], leq), leq)
  }

  lemma HeadAndTail<T>(s: seq<T>)
    requires s != []
    ensures multiset(s) == multiset{s[0]} + multiset(s[1..])
  {
    assert s == [s[0]] + s[1..];
  }

  lemma TakeOut<T>(s: seq<T>, i: nat)
    requires i < |s|
    ensures multiset(s) == multiset{s[i]} + multiset(s[..i] + s[i + 1..])
  {
    assert s == s[..i] + ([s[i]] + s[i + 1..]);
  }

  lemma CancelOne<T>(x: T, m: multiset<T>, n: multiset<T>)
    requires multiset{x} + m == multiset{x} + n
    ensures m == n
  {
    assert m == (multiset{x} + m) - multiset{x};
    assert n == (multiset{x} + n) - multiset{x};
  }

  lemma InsertAdds<T>(x: T, s: seq<T>, leq: (T, T) -> bool)
    ensures multiset(Insert(x, s, leq)) == multiset{x} + multiset(s)
  {
    var p := Place(x, s, leq);
    var r := Insert(x, s, leq);
    TakeOut(r, p);
    assert r[..p] + r[p + 1..] == s;
  }

  lemma InsertSorted<T(!new)>(x: T, s: seq<T>, leq: (T, T) -> bool)
    requires TotalPreorder(leq) && Sorted(s, leq)
    ensures Sorted(Insert(x, s, leq), leq)
  {
    var p := Place(x, s, leq);
    var r := Insert(x, s, leq);
    assert forall i :: 0 <= i < p ==> r[i] == s[i] && leq(s[i], x);
    assert forall i :: p < i < |r| ==> r[i] == s[i - 1] && leq(x, s[i - 1]);
  }

  lemma {:induction false} SortSorts<T(!new)>(s: seq<T>, leq: (T, T) -> bool)
    requires TotalPreorder(leq)
    ensures Sorted(Sort(s, leq), leq)
    ensures multiset(Sort(s, leq)) == multiset(s)
  {
    if s != [] {
      SortSorts(s[1..], leq);
      InsertSorted(s[0], Sort(s[1..], leq), leq);
      InsertAdds(s[0], Sort(s[1..], leq), leq);
      HeadAndTail(s);
    }
  }

  /** Of two elements that compare both ways, the one that comes first stays directly in front. */
  lemma InsertTwo<T(!new)>(a: T, b: T, s: seq<T>, leq: (T, T) -> bool)
    requires TotalPreorder(leq) && leq(a, b) && leq(b, a)
    ensures var p := Place(b, s, leq);
            Insert(a, Insert(b, s, leq), leq) == s[..p] + [a] + [b] + s[p..]
  {
    var p := Place(b, s, leq);
    var t := Insert(b, s, leq);
    assert forall i :: 0 <= i < p ==> t[i] == s[i] && !leq(a, t[i]);
    assert t[p] == b;
    assert Place(a, t, leq) == p;
    assert t[..p] == s[..p] && t[p..] == [b] + s[p..];
  }

  lemma InsertTwoSwapped<T(!new)>(a: T, b: T, s: seq<T>, leq: (T, T) -> bool)
    requires TotalPreorder(leq) && leq(a, b) && leq(b, a)
    ensures Place(a, s, leq) == Place(b, s, leq)
  {
    assert forall y :: leq(a, y) <==> leq(b, y);
  }

  /** Sorted by `leq`, and by `tie` where `leq` holds both ways. */
  ghost predicate StablySorted<T>(s: seq<T>, leq: (T, T) -> bool, tie: (T, T) -> bool) {
    forall i, j :: 0 <= i < j < |s| ==> leq(s[i], s[j]) && (leq(s[j], s[i]) ==> tie(s[i], s[j]))
  }

  lemma InsertStable<T(!new)>(x: T, s: seq<T>, leq: (T, T) -> bool, tie: (T, T) -> bool)
    requires TotalPreorder(leq) && StablySorted(s, leq, tie) && forall y :: y in s ==> tie(x, y)
    ensures StablySorted(Insert(x, s, leq), leq, tie)
  {
    var p := Place(x, s, leq);
    var r := Insert(x, s, leq);
    assert forall i :: 0 <= i < p ==> r[i] == s[i] && leq(s[i], x) && !leq(x, s[i]);
    assert forall i :: p < i < |r| ==> r[i] == s[i - 1] && leq(x, s[i - 1]) && tie(x, s[i - 1]);
  }

  /** Sorting is stable: elements that compare both ways stay in the order they came in. */
  lemma {:induction false} SortIsStable<T(!new)>(s: seq<T>, leq: (T, T) -> bool, tie: (T, T) -> bool)
    requires TotalPreorder(leq) && Sorted(s, tie)
    ensures StablySorted(Sort(s, leq), leq, tie)
  {
    if s != [] {
      var rest := Sort(s[1..], leq);
      SortIsStable(s[1..], leq, tie);
      SortSorts(s[1..], leq);
      forall y | y in rest
        ensures tie(s[0], y)
      {
        assert y in multiset(rest);
        assert y in multiset(s[1..]);
      }
      InsertStable(s[0], rest, leq, tie);
    }
  }
}
