/** Page replacement as sequences of pages.

    FIFO keeps the resident pages in load order, LRU keeps them in order of last
    use; in both the head of the sequence is the next victim.  `History` is the
    unbounded recency list that LRU truncates. */
module Paging {
  import opened Sequences

  function Elems(s: seq<int>): set<int> {
    set x | x in s
  }

  function Init(s: seq<int>): seq<int>
    requires s != []
  {
    s[..|s| - 1]
  }

  function Last(s: seq<int>): int
    requires s != []
  {
    s[|s| - 1]
  }

  /** The last `k` elements, or all of them when there are fewer. */
  function Newest(s: seq<int>, k: nat): seq<int> {
    if |s| <= k then s else s[|s| - k..]
  }

  function IndexOf(s: seq<int>, p: int): (i: nat)
    requires p in s
    ensures i < |s| && s[i] == p && forall j :: 0 <= j < i ==> s[j] != p
  {
    if s[0] == p then 0 else 1 + IndexOf(s[1..], p)
  }

  /** The list without its first `p`. */
  function Without(s: seq<int>, p: int): seq<int> {
    if p in s then s[..IndexOf(s, p)] + s[IndexOf(s, p) + 1..] else s
  }

  // ----- FIFO

  /** The pages that faulted, in order. */
  function FifoFaultTrace(reqs: seq<int>, k: nat): seq<int> {
    if reqs == [] then []
    else
      var before := FifoFaultTrace(Init(reqs), k);
      if Last(reqs) in Fifo(Init(reqs), k) then before else before + [Last(reqs)]
  }

  /** The resident pages, earliest loaded first. */
  function Fifo(reqs: seq<int>, k: nat): seq<int> {
    if reqs == [] then []
    else FifoStep(Fifo(Init(reqs), k), Last(reqs), k)
  }

  function FifoStep(q: seq<int>, p: int, k: nat): seq<int> {
    if p in q then q else Newest(q + [p], k)
  }

  function FifoFaults(reqs: seq<int>, k: nat): nat {
    |FifoFaultTrace(reqs, k)|
  }

  // ----- LRU

  /** The resident pages, least recently used first. */
  function Lru(reqs: seq<int>, k: nat): seq<int> {
    if reqs == [] then []
    else LruStep(Lru(Init(reqs), k), Last(reqs), k)
  }

  function LruStep(s: seq<int>, p: int, k: nat): seq<int> {
    Newest(Without(s, p) + [p], k)
  }

  function LruFaults(reqs: seq<int>, k: nat): nat {
    if reqs == [] then 0
    else LruFaults(Init(reqs), k) + if Last(reqs) in Lru(Init(reqs), k) then 0 else 1
  }

  /** Every page ever requested, least recently used first. */
  function History(reqs: seq<int>): seq<int> {
    if reqs == [] then [] else Without(History(Init(reqs)), Last(reqs)) + [Last(reqs)]
  }

  /** The time of the last request for `p`, counting requests from 1; 0 when there is none. */
  function LastUse(reqs: seq<int>, p: int): (t: nat)
    ensures t <= |reqs|
    ensures p in reqs <==> t > 0
    ensures t > 0 ==> reqs[t - 1] == p
    ensures forall j :: t <= j < |reqs| ==> reqs[j] != p
  {
    if reqs == [] then 0
    else if Last(reqs) == p then |reqs|
    else LastUse(Init(reqs), p)
  }

  /** The pages requested since the last request for `p`. */
  function RequestedSince(reqs: seq<int>, p: int): set<int> {
    set j | LastUse(reqs, p) <= j < |reqs| :: reqs[j]
  }

  // ----- basic facts

  /** Taking a page out of a list without duplicates closes the gap it leaves. */
  lemma WithoutAt(s: seq<int>, i: nat)
    requires Distinct(s) && i < |s|
    ensures Without(s, s[i]) == s[..i] + s[i + 1..]
  {
    assert IndexOf(s, s[i]) == i;
  }

  lemma WithoutElems(s: seq<int>, p: int)
    requires Distinct(s)
    ensures forall x :: x in Without(s, p) <==> x in s && x != p
  {
    if p in s {
      var i := IndexOf(s, p);
      assert s == s[..i] + [p] + s[i + 1..];
      assert p !in s[..i] && p !in s[i + 1..];
    }
  }

  lemma WithoutDistinct(s: seq<int>, p: int)
    requires Distinct(s)
    ensures Distinct(Without(s, p) + [p])
  {
    WithoutElems(s, p);
    assert p !in Without(s, p);
  }

  lemma NewestAfterNewest(s: seq<int>, p: int, k: nat)
    requires k >= 1
    ensures Newest(Newest(s, k) + [p], k) == Newest(s + [p], k)
  {}

  lemma {:induction false} DistinctCard(s: seq<int>)
    requires Distinct(s)
    ensures |Elems(s)| == |s|
  {
    if s != [] {
      DistinctCard(Init(s));
      assert Elems(s) == Elems(Init(s)) + {Last(s)};
    }
  }

  /** FIFO never holds more than `k` pages, none twice, and only requested ones. */
  lemma {:induction false} FifoShape(reqs: seq<int>, k: nat)
    requires k >= 1
    ensures |Fifo(reqs, k)| <= k && Distinct(Fifo(reqs, k))
    ensures forall x :: x in Fifo(reqs, k) ==> x in reqs
    ensures reqs != [] ==> Last(reqs) in Fifo(reqs, k)
  {
    if reqs != [] {
      FifoShape(Init(reqs), k);
      var q, p := Fifo(Init(reqs), k), Last(reqs);
      assert reqs == Init(reqs) + [p];
      var n := Newest(q + [p], k);
      assert n[|n| - 1] == p && forall x :: x in n ==> x in q + [p];
    }
  }

  /** At every moment FIFO holds exactly the last `k` pages that faulted, oldest
      first: the page it evicts is the one loaded earliest. */
  lemma {:induction false} FifoHoldsLastFaults(reqs: seq<int>, k: nat)
    requires k >= 1
    ensures Fifo(reqs, k) == Newest(FifoFaultTrace(reqs, k), k)
  {
    if reqs != [] {
      FifoHoldsLastFaults(Init(reqs), k);
      NewestAfterNewest(FifoFaultTrace(Init(reqs), k), Last(reqs), k);
    }
  }

  lemma {:induction false} LruShape(reqs: seq<int>, k: nat)
    requires k >= 1
    ensures Lru(reqs, k) == Newest(History(reqs), k)
    ensures Distinct(History(reqs)) && Distinct(Lru(reqs, k))
    ensures reqs != [] ==> Lru(reqs, k) != [] && Last(Lru(reqs, k)) == Last(reqs)
  {
    if reqs != [] {
      LruShape(Init(reqs), k);
      var r, p := History(Init(reqs)), Last(reqs);
      WithoutDistinct(r, p);
      NewestWithout(r, p, k);
    }
  }

  lemma NewestShift(w: seq<int>, b: seq<int>, p: int)
    requires b != []
    ensures Newest(w + b + [p], |b|) == b[1..] + [p]
  {
    assert w + b + [p] == (w + [b[0]]) + (b[1..] + [p]);
  }

  /** Truncating the recency list commutes with moving a page to its end: a page
      already in the truncated part, then a page outside it. */
  lemma RemoveFromRight(a: seq<int>, b: seq<int>, i: nat)
    requires i < |b|
    ensures (a + b)[..|a| + i] + (a + b)[|a| + i + 1..] == a + (b[..i] + b[i + 1..])
  {}

  lemma RemoveFromLeft(a: seq<int>, b: seq<int>, i: nat)
    requires i < |a|
    ensures (a + b)[..i] + (a + b)[i + 1..] == (a[..i] + a[i + 1..]) + b
  {}

  lemma DistinctParts(a: seq<int>, b: seq<int>)
    requires Distinct(a + b)
    ensures Distinct(b) && forall i :: 0 <= i < |b| ==> (a + b)[|a| + i] == b[i]
  {
    assert forall j :: 0 <= j < |b| ==> (a + b)[|a| + j] == b[j];
  }

  lemma NewestOfConcat(a: seq<int>, w: seq<int>, p: int)
    ensures Newest(a + w + [p], |w| + 1) == w + [p]
  {
    assert a + w + [p] == a + (w + [p]);
  }

  lemma WithoutFromRight(a: seq<int>, b: seq<int>, i: nat)
    requires Distinct(a + b) && i < |b|
    ensures Without(a + b, b[i]) == a + (b[..i] + b[i + 1..])
  {
    hide *;
    DistinctParts(a, b);
    var j := |a| + i;
    assert (a + b)[j] == b[i];
    WithoutAt(a + b, j);
    RemoveFromRight(a, b, i);
  }

  lemma LruStepHit(b: seq<int>, i: nat)
    requires Distinct(b) && i < |b|
    ensures LruStep(b, b[i], |b|) == b[..i] + b[i + 1..] + [b[i]]
  {
    WithoutAt(b, i);
  }

  lemma NewestWithoutHit(a: seq<int>, b: seq<int>, i: nat)
    requires Distinct(a + b) && i < |b|
    ensures Newest(Without(a + b, b[i]) + [b[i]], |b|) == LruStep(b, b[i], |b|)
  {
    DistinctParts(a, b);
    LruStepHit(b, i);
    WithoutFromRight(a, b, i);
    NewestOfConcat(a, b[..i] + b[i + 1..], b[i]);
  }

  lemma NewestWithoutMiss(a: seq<int>, b: seq<int>, p: int)
    requires b != [] && p !in b
    ensures Newest(Without(a + b, p) + [p], |b|) == LruStep(b, p, |b|)
  {
    NewestShift([], b, p);
    assert [] + b == b;
    assert forall j :: |a| <= j < |a + b| ==> (a + b)[j] in b;
    if p in a + b {
      var i := IndexOf(a + b, p);
      RemoveFromLeft(a, b, i);
      NewestShift(a[..i] + a[i + 1..], b, p);
    } else {
      NewestShift(a, b, p);
    }
  }

  lemma NewestWithout(r: seq<int>, p: int, k: nat)
    requires k >= 1 && Distinct(r)
    ensures LruStep(Newest(r, k), p, k) == Newest(Without(r, p) + [p], k)
  {
    if |r| > k {
      var a, b := r[..|r| - k], r[|r| - k..];
      assert r == a + b && Newest(r, k) == b && |b| == k;
      if p in b {
        var i := IndexOf(b, p);
        NewestWithoutHit(a, b, i);
      } else {
        NewestWithoutMiss(a, b, p);
      }
    }
  }

  ghost predicate UseOrdered(reqs: seq<int>, s: seq<int>) {
    forall i, j :: 0 <= i < j < |s| ==> LastUse(reqs, s[i]) < LastUse(reqs, s[j])
  }

  lemma WithoutUseOrdered(reqs: seq<int>, s: seq<int>, p: int)
    requires UseOrdered(reqs, s)
    ensures UseOrdered(reqs, Without(s, p))
  {
  }

  lemma UseOrderedExtends(reqs: seq<int>, s: seq<int>)
    requires reqs != [] && UseOrdered(Init(reqs), s) && Last(reqs) !in s
    ensures UseOrdered(reqs, s + [Last(reqs)])
  {
    var t := s + [Last(reqs)];
    forall i, j | 0 <= i < j < |t|
      ensures LastUse(reqs, t[i]) < LastUse(reqs, t[j])
    {
      assert t[i] in s && t[i] != Last(reqs);
      if j < |s| {
        assert t[j] in s;
      }
    }
  }

  /** `History` lists each requested page once, in increasing order of last use. */
  lemma {:induction false} HistoryIsRecencyOrder(reqs: seq<int>)
    ensures Distinct(History(reqs))
    ensures forall x :: x in History(reqs) <==> x in reqs
    ensures UseOrdered(reqs, History(reqs))
  {
    if reqs != [] {
      var before, p := Init(reqs), Last(reqs);
      HistoryIsRecencyOrder(before);
      var r := History(before);
      assert reqs == before + [p];
      WithoutElems(r, p);
      WithoutUseOrdered(before, r, p);
      UseOrderedExtends(reqs, Without(r, p));
      WithoutDistinct(r, p);
    }
  }
}
