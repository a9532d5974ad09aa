/** LRU is a stack algorithm, and what that says about hits and fault counts. */
module LruStack {
  import opened Sequences
  import opened Paging

  /** The frames hold the `min(k, distinct)` most recently used distinct pages. */
  lemma LruHoldsMostRecent(reqs: seq<int>, k: nat)
    requires k >= 1
    ensures Lru(reqs, k) == Newest(History(reqs), k)
    ensures |History(reqs)| == |Elems(reqs)|
    ensures |Lru(reqs, k)| == if |Elems(reqs)| < k then |Elems(reqs)| else k
    ensures Distinct(Lru(reqs, k)) && UseOrdered(reqs, Lru(reqs, k))
    ensures forall x, y :: x in Lru(reqs, k) && y in reqs && y !in Lru(reqs, k) ==> LastUse(reqs, y) < LastUse(reqs, x)
  {
    LruShape(reqs, k);
    HistoryIsRecencyOrder(reqs);
    HistorySize(reqs);
    NewestUseOrdered(reqs, History(reqs), k);
  }

  lemma HistorySize(reqs: seq<int>)
    ensures |History(reqs)| == |Elems(reqs)|
  {
    HistoryIsRecencyOrder(reqs);
    DistinctCard(History(reqs));
    var a, b := Elems(History(reqs)), Elems(reqs);
    assert forall x :: x in a <==> x in b;
    assert a == b;
  }

  lemma NewestUseOrdered(reqs: seq<int>, h: seq<int>, k: nat)
    requires UseOrdered(reqs, h)
    ensures UseOrdered(reqs, Newest(h, k))
    ensures forall x, y :: x in Newest(h, k) && y in h && y !in Newest(h, k) ==> LastUse(reqs, y) < LastUse(reqs, x)
  {
    var n := Newest(h, k);
    var d := |h| - |n|;
    assert forall i :: 0 <= i < |n| ==> n[i] == h[d + i];
    assert forall j :: d <= j < |h| ==> h[j] == n[j - d];
    assert forall i, j :: 0 <= i < j < |n| ==> n[i] == h[d + i] && n[j] == h[d + j];
    forall x, y | x in n && y in h && y !in n
      ensures LastUse(reqs, y) < LastUse(reqs, x)
    {
      var i :| 0 <= i < |n| && n[i] == x;
      var j :| 0 <= j < |h| && h[j] == y;
      assert n[i] == h[d + i];
      assert j < d;
    }
  }

  /** More frames always hold a superset of the pages. */
  lemma Inclusion(reqs: seq<int>, k: nat, k': nat)
    requires 1 <= k <= k'
    ensures Elems(Lru(reqs, k)) <= Elems(Lru(reqs, k'))
  {
    LruShape(reqs, k);
    LruShape(reqs, k');
    var h := History(reqs);
    if |h| > k' {
      assert h[|h| - k..] == h[|h| - k'..][k' - k..];
    }
  }

  /** Adding frames never adds faults. */
  lemma {:induction false} MoreFramesNeverHurt(reqs: seq<int>, k: nat, k': nat)
    requires 1 <= k <= k'
    ensures LruFaults(reqs, k') <= LruFaults(reqs, k)
  {
    if reqs != [] {
      MoreFramesNeverHurt(Init(reqs), k, k');
      Inclusion(Init(reqs), k, k');
      assert Last(reqs) in Lru(Init(reqs), k) ==> Last(reqs) in Elems(Lru(Init(reqs), k'));
    }
  }

  lemma LastRequest(reqs: seq<int>, x: int)
    requires x in reqs
    ensures LastUse(reqs, x) >= 1 && reqs[LastUse(reqs, x) - 1] == x
  {}

  lemma SinceIsAfter(reqs: seq<int>, p: int, x: int)
    requires p in reqs
    ensures x in RequestedSince(reqs, p) <==> x in reqs && LastUse(reqs, x) > LastUse(reqs, p)
  {
    if x in reqs && LastUse(reqs, x) > LastUse(reqs, p) {
      LastRequest(reqs, x);
    }
  }

  lemma TailIsAfter(reqs: seq<int>, h: seq<int>, i: nat, x: int)
    requires UseOrdered(reqs, h) && i < |h|
    ensures x in h[i + 1..] <==> x in h && LastUse(reqs, x) > LastUse(reqs, h[i])
  {
    if x in h && LastUse(reqs, x) > LastUse(reqs, h[i]) {
      var m :| 0 <= m < |h| && h[m] == x;
      assert h[i + 1..][m - i - 1] == x;
    }
  }

  /** The pages requested since the last use of a page are those behind it in the history. */
  lemma SinceIsTail(reqs: seq<int>, i: nat)
    requires i < |History(reqs)|
    ensures RequestedSince(reqs, History(reqs)[i]) == Elems(History(reqs)[i + 1..])
  {
    HistoryIsRecencyOrder(reqs);
    var h := History(reqs);
    forall x
      ensures x in RequestedSince(reqs, h[i]) <==> x in Elems(h[i + 1..])
    {
      SinceIsAfter(reqs, h[i], x);
      TailIsAfter(reqs, h, i, x);
    }
  }

  /** A request hits exactly when its page was requested before and fewer than `k`
      distinct pages were requested since. */
  lemma HitCondition(reqs: seq<int>, p: int, k: nat)
    requires k >= 1
    ensures p in Lru(reqs, k) <==> p in reqs && |RequestedSince(reqs, p)| < k
  {
    LruShape(reqs, k);
    HistoryIsRecencyOrder(reqs);
    var h := History(reqs);
    if p in reqs {
      assert p in h;
      var i :| 0 <= i < |h| && h[i] == p;
      SinceIsTail(reqs, i);
      TailSize(h, i);
      InNewest(h, i, k);
    } else {
      assert forall x :: x in Newest(h, k) ==> x in h;
    }
  }

  lemma TailSize(h: seq<int>, i: nat)
    requires Distinct(h) && i < |h|
    ensures |Elems(h[i + 1..])| == |h| - i - 1
  {
    DistinctCard(h[i + 1..]);
  }

  lemma InNewest(h: seq<int>, i: nat, k: nat)
    requires Distinct(h) && i < |h|
    ensures h[i] in Newest(h, k) <==> |h| - i <= k
  {
    var n := Newest(h, k);
    if |h| - i <= k {
      assert n[i - (|h| - |n|)] == h[i];
    }
  }

}
