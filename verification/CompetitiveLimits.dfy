/** The competitive bound cannot be improved: over `k + 1` pages requested in a circle
    FIFO and LRU fault every time, and a schedule only once in `k` requests. */
module CompetitiveLimits {
  import opened Arithmetic
  import opened Paging
  import opened Competitive

  function Page(i: nat, k: nat): int {
    i % (k + 1)
  }

  function Cycle(n: nat, k: nat): (reqs: seq<int>)
    ensures |reqs| == n && forall i :: 0 <= i < n ==> reqs[i] == Page(i, k)
  {
    seq(n, i requires 0 <= i => Page(i, k))
  }

  function PagesBelow(n: nat): (s: set<int>)
    ensures forall i :: i in s <==> 0 <= i < n
    ensures |s| == n
  {
    if n == 0 then {} else PagesBelow(n - 1) + {n - 1}
  }

  /** Requests less than a full turn apart are for different pages. */
  lemma DifferentPages(i: nat, d: nat, k: nat)
    requires 0 < d <= k
    ensures Page(i, k) != Page(i + d, k)
  {
    var m := k + 1;
    var a, b := i / m, (i + d) / m;
    assert m * a == m * (b - (b - a));
    if i % m == (i + d) % m {
      assert m * (b - a) == d;
      if b - a >= 1 {
        Monotone(m, 1, b - a);
      } else {
        Monotone(m, b - a, 0);
      }
    }
  }

  // ----- FIFO and LRU fault on every request

  lemma CycleInit(n: nat, k: nat)
    requires n > 0
    ensures Init(Cycle(n, k)) == Cycle(n - 1, k) && Last(Cycle(n, k)) == Page(n - 1, k)
    ensures Cycle(n, k) == Cycle(n - 1, k) + [Page(n - 1, k)]
  {}

  lemma NotAmongLast(n: nat, k: nat)
    ensures Page(n, k) !in Newest(Cycle(n, k), k)
  {
    var last := Newest(Cycle(n, k), k);
    forall i | 0 <= i < |last|
      ensures last[i] != Page(n, k)
    {
      var j := n - |last| + i;
      assert last[i] == Page(j, k);
      DifferentPages(j, n - j, k);
    }
  }

  lemma NoRequestYet(k: nat)
    ensures FifoFaultTrace(Cycle(0, k), k) == Cycle(0, k)
    ensures Lru(Cycle(0, k), k) == Newest(Cycle(0, k), k) && LruFaults(Cycle(0, k), k) == 0
  {
    hide Page;
    assert Cycle(0, k) == [];
  }

  lemma FifoFaultsNext(before: seq<int>, p: int, k: nat)
    requires k >= 1 && FifoFaultTrace(before, k) == before && p !in Newest(before, k)
    ensures FifoFaultTrace(before + [p], k) == before + [p]
  {
    FifoHoldsLastFaults(before, k);
    assert Init(before + [p]) == before;
  }

  lemma {:induction false} FifoFaultsAlways(n: nat, k: nat)
    requires k >= 1
    ensures FifoFaultTrace(Cycle(n, k), k) == Cycle(n, k)
  {
    hide *;
    if n == 0 {
      NoRequestYet(k);
    } else {
      FifoFaultsAlways(n - 1, k);
      NotAmongLast(n - 1, k);
      FifoFaultsNext(Cycle(n - 1, k), Page(n - 1, k), k);
      CycleInit(n, k);
    }
  }

  lemma LruFaultsNext(before: seq<int>, p: int, k: nat)
    requires k >= 1 && Lru(before, k) == Newest(before, k) && p !in Newest(before, k)
    ensures Lru(before + [p], k) == Newest(before + [p], k)
    ensures LruFaults(before + [p], k) == LruFaults(before, k) + 1
  {
    assert Init(before + [p]) == before;
    NewestAfterNewest(before, p, k);
  }

  lemma {:induction false} LruFaultsAlways(n: nat, k: nat)
    requires k >= 1
    ensures Lru(Cycle(n, k), k) == Newest(Cycle(n, k), k)
    ensures LruFaults(Cycle(n, k), k) == n
  {
    hide *;
    if n == 0 {
      NoRequestYet(k);
    } else {
      LruFaultsAlways(n - 1, k);
      NotAmongLast(n - 1, k);
      LruFaultsNext(Cycle(n - 1, k), Page(n - 1, k), k);
      CycleInit(n, k);
    }
  }

  // ----- a schedule that faults once in k requests

  /** The time of the schedule's next fault once its frames are full: a multiple of `k`. */
  function NextFault(t: nat, k: nat): (f: nat)
    requires k >= 1
    ensures t <= f && (t >= k ==> f < t + k)
  {
    if t <= k then k else NextFault(t - k, k) + k
  }

  lemma {:induction false} NextFaultStep(t: nat, k: nat)
    requires 1 <= k <= t
    ensures NextFault(t + 1, k) == if NextFault(t, k) == t then t + k else NextFault(t, k)
  {
    if t >= 2 * k {
      NextFaultStep(t - k, k);
    }
  }

  lemma {:induction false} NextFaultAtTurn(m: nat, k: nat)
    requires k >= 1
    ensures NextFault(k * (m + 1), k) == k * (m + 1)
  {
    if m > 0 {
      NextFaultAtTurn(m - 1, k);
      Spread(k, m, 1);
      Monotone(k, 1, m);
    }
  }

  /** All pages but the one that will be needed last. */
  function Keep(t: nat, k: nat): set<int>
    requires k >= 1
  {
    if t < k then PagesBelow(t) else PagesBelow(k + 1) - {Page(NextFault(t, k), k)}
  }

  function Plan(n: nat, k: nat): (c: seq<set<int>>)
    requires k >= 1
    ensures |c| == n + 1 && forall t :: 0 <= t <= n ==> c[t] == Keep(t, k)
  {
    seq(n + 1, t requires 0 <= t => Keep(t, k))
  }

  lemma KeepSize(t: nat, k: nat)
    requires k >= 1
    ensures |Keep(t, k)| <= k
  {
    if t >= k {
      assert Page(NextFault(t, k), k) in PagesBelow(k + 1);
    }
  }

  lemma FirstTurn(i: nat, k: nat)
    requires i <= k
    ensures Page(i, k) == i
  {}

  lemma FillStep(t: nat, k: nat)
    requires t < k
    ensures Page(t, k) !in Keep(t, k)
    ensures Page(t, k) in Keep(t + 1, k) && Keep(t + 1, k) <= Keep(t, k) + {Page(t, k)}
  {
    FirstTurn(t, k);
    FirstTurn(k, k);
    hide Page;
    assert t + 1 == k ==> NextFault(k, k) == k;
  }

  lemma TurnStep(t: nat, k: nat)
    requires 1 <= k <= t
    ensures Page(t, k) in Keep(t, k) <==> NextFault(t, k) != t
    ensures Page(t, k) in Keep(t + 1, k) && Keep(t + 1, k) <= Keep(t, k) + {Page(t, k)}
  {
    NextFaultStep(t, k);
    var f := NextFault(t, k);
    if f == t {
      DifferentPages(t, k, k);
    } else {
      DifferentPages(t, f - t, k);
    }
  }

  lemma PlanIsSchedule(n: nat, k: nat)
    requires k >= 1
    ensures Schedule(Cycle(n, k), Plan(n, k), k)
  {
    forall t | 0 <= t < n
      ensures Serves(Plan(n, k), t, Cycle(n, k)[t], k)
    {
      KeepSize(t + 1, k);
      if t < k {
        FillStep(t, k);
      } else {
        TurnStep(t, k);
      }
    }
  }

  function PlanCost(n: nat, k: nat): nat
    requires k >= 1
  {
    ScheduleFaults(Cycle(n, k), Plan(n, k))
  }

  lemma PlanInit(n: nat, k: nat)
    requires k >= 1
    ensures n == 0 ==> PlanCost(n, k) == 0
    ensures n > 0 ==> PlanCost(n, k) == PlanCost(n - 1, k) + if Page(n - 1, k) in Keep(n - 1, k) then 0 else 1
  {
    if n > 0 {
      CycleInit(n, k);
      assert Plan(n, k)[..n] == Plan(n - 1, k);
      hide Keep, PagesBelow;
    }
  }

  lemma {:induction false} PlanFills(n: nat, k: nat)
    requires k >= 1 && n <= k
    ensures PlanCost(n, k) == n
  {
    hide PlanCost, Keep, PagesBelow;
    PlanInit(n, k);
    if n > 0 {
      FillStep(n - 1, k);
      PlanFills(n - 1, k);
    }
  }

  /** One request after the first `k`: the next fault moves on by `k` iff this is one. */
  lemma PlanStep(n: nat, k: nat)
    requires 1 <= k < n
    ensures || (PlanCost(n, k) == PlanCost(n - 1, k) && NextFault(n, k) == NextFault(n - 1, k))
            || (PlanCost(n, k) == PlanCost(n - 1, k) + 1 && NextFault(n, k) == NextFault(n - 1, k) + k)
  {
    hide PlanCost, Keep, NextFault;
    PlanInit(n, k);
    TurnStep(n - 1, k);
    NextFaultStep(n - 1, k);
  }

  lemma PlanFull(k: nat)
    requires k >= 1
    ensures NextFault(k, k) == k && PlanCost(k, k) == k
  {
    PlanFills(k, k);
  }

  /** So the next fault comes `k` requests after the last. */
  lemma {:induction false} PlanFaults(n: nat, k: nat)
    requires 1 <= k <= n
    ensures NextFault(n, k) == k * (PlanCost(n, k) - k + 1)
  {
    hide *;
    if n == k {
      PlanFull(k);
    } else {
      PlanFaults(n - 1, k);
      PlanStep(n, k);
      Spread(k, PlanCost(n - 1, k) - k + 1, 1);
    }
  }

  lemma Cancel(k: nat, a: int, b: int)
    requires k >= 1 && k * a == k * b
    ensures a == b
  {
    if a < b {
      Monotone(k, a + 1, b);
    } else if b < a {
      Monotone(k, b + 1, a);
    }
  }

  lemma PlanTurns(k: nat, m: nat)
    requires k >= 1
    ensures PlanCost(k * (m + 1), k) == k + m
  {
    var n := k * (m + 1);
    Monotone(k, 1, m + 1);
    PlanFaults(n, k);
    NextFaultAtTurn(m, k);
    hide NextFault, PlanCost;
    Cancel(k, PlanCost(n, k) - k + 1, m + 1);
  }

  /** In `m` turns after the first `k` requests FIFO and LRU fault `k` times each, the
      schedule once. */
  lemma FamilyOverCircle(k: nat, m: nat) returns (reqs: seq<int>, c: seq<set<int>>)
    requires k >= 1
    ensures |reqs| == k * (m + 1) && |Elems(reqs)| <= k + 1 && Schedule(reqs, c, k)
    ensures FifoFaults(reqs, k) == |reqs| && LruFaults(reqs, k) == |reqs|
    ensures ScheduleFaults(reqs, c) == k + m
  {
    Monotone(k, 0, m + 1);
    var n: nat := k * (m + 1);
    reqs, c := Cycle(n, k), Plan(n, k);
    PlanIsSchedule(n, k);
    FifoFaultsAlways(n, k);
    LruFaultsAlways(n, k);
    PlanTurns(k, m);
    CyclePages(n, k);
  }

  lemma CyclePages(n: nat, k: nat)
    ensures |Elems(Cycle(n, k))| <= k + 1
  {
    SubsetCard(Elems(Cycle(n, k)), PagesBelow(k + 1));
  }

  function EnoughTurns(k: nat, num: nat, extra: nat): (m: nat)
    ensures m == num * k + extra + 1
  {
    num * k + extra + 1
  }

  lemma Exceeds(k: nat, num: nat, den: nat, extra: nat, m: nat)
    requires num < den * k && m == EnoughTurns(k, num, extra)
    ensures den * (k * (m + 1)) > num * (k + m) + extra
  {
    Monotone(m + 1, num + 1, den * k);
    Swap(den, m + 1, k);
    Spread(m + 1, num, 1);
    Spread(num, k, m);
    Spread(num, m, 1);
    assert den * (k * (m + 1)) == (m + 1) * (den * k);
    assert (m + 1) * num == num * (m + 1);
  }

  /** No factor below `k` is enough, whatever constant is added. */
  lemma NoSmallerFactor(k: nat, num: nat, den: nat, extra: nat) returns (reqs: seq<int>, c: seq<set<int>>)
    requires k >= 1 && num < den * k
    ensures Schedule(reqs, c, k)
    ensures den * FifoFaults(reqs, k) > num * ScheduleFaults(reqs, c) + extra
    ensures den * LruFaults(reqs, k) > num * ScheduleFaults(reqs, c) + extra
  {
    var m := EnoughTurns(k, num, extra);
    reqs, c := FamilyOverCircle(k, m);
    hide FifoFaults, LruFaults, ScheduleFaults, Schedule, EnoughTurns;
    Exceeds(k, num, den, extra, m);
  }
}
