/** Both algorithms are themselves schedules in the sense of the competitive bound. */
module PagingSchedules {
  import opened Sequences
  import opened Paging
  import opened Competitive

  lemma ExtendSchedule(reqs: seq<int>, c: seq<set<int>>, k: nat, next: set<int>)
    requires reqs != [] && Schedule(Init(reqs), c, k)
    requires |next| <= k && Last(reqs) in next && next <= c[|reqs| - 1] + {Last(reqs)}
    ensures Schedule(reqs, c + [next], k)
    ensures ScheduleFaults(reqs, c + [next]) ==
      ScheduleFaults(Init(reqs), c) + if Last(reqs) in c[|reqs| - 1] then 0 else 1
  {
    var c' := c + [next];
    assert c'[..|reqs|] == c;
    forall t | 0 <= t < |reqs|
      ensures Serves(c', t, reqs[t], k)
    {
      if t < |reqs| - 1 {
        assert Serves(c, t, Init(reqs)[t], k);
      }
    }
  }

  lemma NewestServes(s: seq<int>, p: int, k: nat)
    requires k >= 1 && Distinct(s + [p])
    ensures |Elems(Newest(s + [p], k))| <= k
    ensures p in Elems(Newest(s + [p], k)) && Elems(Newest(s + [p], k)) <= Elems(s) + {p}
  {
    var n := Newest(s + [p], k);
    assert Distinct(n);
    DistinctCard(n);
    assert n[|n| - 1] == p;
    assert forall x :: x in n ==> x in s + [p];
  }

  lemma FifoServes(q: seq<int>, p: int, k: nat)
    requires k >= 1 && Distinct(q) && |q| <= k
    ensures var next := Elems(FifoStep(q, p, k));
      |next| <= k && p in next && next <= Elems(q) + {p}
  {
    if p in q {
      DistinctCard(q);
    } else {
      NewestServes(q, p, k);
    }
  }

  lemma LruServes(s: seq<int>, p: int, k: nat)
    requires k >= 1 && Distinct(s)
    ensures var next := Elems(LruStep(s, p, k));
      |next| <= k && p in next && next <= Elems(s) + {p}
  {
    WithoutDistinct(s, p);
    WithoutElems(s, p);
    NewestServes(Without(s, p), p, k);
    assert Elems(Without(s, p)) <= Elems(s);
  }

  lemma ExtendFifo(reqs: seq<int>, c: seq<set<int>>, k: nat)
    requires k >= 1 && reqs != [] && Schedule(Init(reqs), c, k) && c[|reqs| - 1] == Elems(Fifo(Init(reqs), k))
    ensures Schedule(reqs, c + [Elems(Fifo(reqs, k))], k)
    ensures ScheduleFaults(reqs, c + [Elems(Fifo(reqs, k))]) - ScheduleFaults(Init(reqs), c)
         == FifoFaults(reqs, k) - FifoFaults(Init(reqs), k)
  {
    FifoShape(Init(reqs), k);
    FifoServes(Fifo(Init(reqs), k), Last(reqs), k);
    ExtendSchedule(reqs, c, k, Elems(Fifo(reqs, k)));
  }

  lemma ExtendLru(reqs: seq<int>, c: seq<set<int>>, k: nat)
    requires k >= 1 && reqs != [] && Schedule(Init(reqs), c, k) && c[|reqs| - 1] == Elems(Lru(Init(reqs), k))
    ensures Schedule(reqs, c + [Elems(Lru(reqs, k))], k)
    ensures ScheduleFaults(reqs, c + [Elems(Lru(reqs, k))]) - ScheduleFaults(Init(reqs), c)
         == LruFaults(reqs, k) - LruFaults(Init(reqs), k)
  {
    LruShape(Init(reqs), k);
    LruServes(Lru(Init(reqs), k), Last(reqs), k);
    ExtendSchedule(reqs, c, k, Elems(Lru(reqs, k)));
  }

  /** What FIFO holds over time is a demand-paging schedule with FIFO's faults. */
  lemma {:induction false} FifoIsSchedule(reqs: seq<int>, k: nat) returns (c: seq<set<int>>)
    requires k >= 1
    ensures Schedule(reqs, c, k) && c[|reqs|] == Elems(Fifo(reqs, k))
    ensures ScheduleFaults(reqs, c) == FifoFaults(reqs, k)
  {
    if reqs == [] {
      c := [{}];
    } else {
      c := FifoIsSchedule(Init(reqs), k);
      ExtendFifo(reqs, c, k);
      c := c + [Elems(Fifo(reqs, k))];
    }
  }

  lemma {:induction false} LruIsSchedule(reqs: seq<int>, k: nat) returns (c: seq<set<int>>)
    requires k >= 1
    ensures Schedule(reqs, c, k) && c[|reqs|] == Elems(Lru(reqs, k))
    ensures ScheduleFaults(reqs, c) == LruFaults(reqs, k)
  {
    if reqs == [] {
      c := [{}];
    } else {
      c := LruIsSchedule(Init(reqs), k);
      ExtendLru(reqs, c, k);
      c := c + [Elems(Lru(reqs, k))];
    }
  }

  /** So neither algorithm is more than `k` times worse than the other. */
  lemma FifoAgainstLru(reqs: seq<int>, k: nat)
    requires k >= 1
    ensures FifoFaults(reqs, k) <= k * LruFaults(reqs, k)
    ensures LruFaults(reqs, k) <= k * FifoFaults(reqs, k)
  {
    var c := LruIsSchedule(reqs, k);
    KCompetitive(reqs, c, k);
    c := FifoIsSchedule(reqs, k);
    KCompetitive(reqs, c, k);
  }
}
