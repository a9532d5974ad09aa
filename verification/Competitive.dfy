/** The competitive bound: FIFO and LRU against every offline schedule.

    The request sequence is cut greedily into phases of at most `k` distinct pages.
    Each algorithm faults at most `k` times in a phase, and a schedule with `h <= k`
    frames faults at least `k - h + 1` times per phase. */
module Competitive {
  import opened Arithmetic
  import opened Sequences
  import opened Paging
  import opened LruStack

  /** A demand-paging schedule with `h` frames that starts empty: `c[t]` is held
      before request `t`; it may drop pages at any time but only loads the
      requested one. */
  ghost predicate Schedule(reqs: seq<int>, c: seq<set<int>>, h: nat) {
    && |c| == |reqs| + 1
    && c[0] == {}
    && forall t :: 0 <= t < |reqs| ==> Serves(c, t, reqs[t], h)
  }

  ghost predicate Serves(c: seq<set<int>>, t: nat, p: int, h: nat)
    requires t + 1 < |c|
  {
    |c[t + 1]| <= h && p in c[t + 1] && c[t + 1] <= c[t] + {p}
  }

  function ScheduleFaults(reqs: seq<int>, c: seq<set<int>>): nat
    requires |c| == |reqs| + 1
  {
    if reqs == [] then 0
    else ScheduleFaults(Init(reqs), c[..|reqs|]) + if Last(reqs) in c[|reqs| - 1] then 0 else 1
  }

  // ----- windows

  /** Restricting to a window: from any state reached by `before`, FIFO faults at
      most once on each distinct page of a window of at most `k` distinct pages. */
  lemma {:induction false} FifoWindow(before: seq<int>, w: seq<int>, k: nat) returns (t: seq<int>)
    requires k >= 1 && |Elems(w)| <= k
    ensures FifoFaultTrace(before + w, k) == FifoFaultTrace(before, k) + t
    ensures Distinct(t) && Elems(t) <= Elems(w)
    ensures FifoFaults(before + w, k) <= FifoFaults(before, k) + |Elems(w)|
  {
    if w == [] {
      t := [];
      assert before + w == before;
    } else {
      var p, w' := Last(w), Init(w);
      assert w == w' + [p] && Elems(w) == Elems(w') + {p};
      assert Init(before + w) == before + w';
      SubsetCard(Elems(w'), Elems(w));
      t := FifoWindow(before, w', k);
      DistinctCard(t);
      SubsetCard(Elems(t), Elems(w));
      FifoHoldsLastFaults(before + w', k);
      if p !in Fifo(before + w', k) {
        assert p !in t by {
          NewestKeeps(FifoFaultTrace(before, k), t, k);
        }
        t := t + [p];
        assert Elems(t) <= Elems(w);
      }
    }
    DistinctCard(t);
    SubsetCard(Elems(t), Elems(w));
  }

  lemma NewestKeeps(a: seq<int>, t: seq<int>, k: nat)
    requires |t| <= k
    ensures forall x :: x in t ==> x in Newest(a + t, k)
  {
    var s := a + t;
    forall x | x in t
      ensures x in Newest(s, k)
    {
      var i :| 0 <= i < |t| && t[i] == x;
      assert Newest(s, k)[|Newest(s, k)| - |t| + i] == x;
    }
  }

  lemma SubsetCard(a: set<int>, b: set<int>)
    requires a <= b
    ensures |a| <= |b|
  {
    assert b == a + (b - a);
  }

  lemma {:induction false} LruWindow(before: seq<int>, w: seq<int>, k: nat)
    requires k >= 1 && |Elems(w)| <= k
    ensures LruFaults(before + w, k) <= LruFaults(before, k) + |Elems(w)|
  {
    if w == [] {
      assert before + w == before;
    } else {
      var p, w' := Last(w), Init(w);
      assert w == w' + [p] && Elems(w) == Elems(w') + {p};
      assert Init(before + w) == before + w';
      SubsetCard(Elems(w'), Elems(w));
      LruWindow(before, w', k);
      if p in w' {
        // everything requested since p lies in the window, and is not p itself
        var r := before + w';
        assert LastUse(r, p) > |before| by {
          var j :| 0 <= j < |w'| && w'[j] == p;
          assert r[|before| + j] == p;
        }
        assert RequestedSince(r, p) <= Elems(w') - {p};
        SubsetCard(RequestedSince(r, p), Elems(w') - {p});
        HitCondition(r, p, k);
      }
    }
  }

  // ----- phases

  /** The greedy cut: how many phases there are and where the last one starts. */
  datatype Cut = Cut(count: nat, start: nat)

  function Phases(reqs: seq<int>, k: nat): (c: Cut)
    ensures c.start <= |reqs|
    ensures reqs != [] ==> c.count >= 1 && c.start < |reqs|
  {
    if reqs == [] then Cut(0, 0)
    else
      var c := Phases(Init(reqs), k);
      if c.count >= 1 && |Elems(reqs[c.start..])| <= k then c else Cut(c.count + 1, |reqs| - 1)
  }

  ghost function Current(reqs: seq<int>, k: nat): set<int> {
    Elems(reqs[Phases(reqs, k).start..])
  }

  lemma CurrentSize(reqs: seq<int>, k: nat)
    requires k >= 1
    ensures |Current(reqs, k)| <= k
  {
    if reqs != [] && Phases(reqs, k).start == |reqs| - 1 {
      assert reqs[Phases(reqs, k).start..] == [Last(reqs)];
      assert Current(reqs, k) == {Last(reqs)};
    }
  }

  lemma CutAt(reqs: seq<int>, start: nat) returns (done: seq<int>, current: seq<int>)
    requires reqs != [] && start <= |Init(reqs)|
    ensures done == Init(reqs)[..start] == reqs[..start] && current == Init(reqs)[start..]
    ensures done + current == Init(reqs) == reqs[..|reqs| - 1]
  {
    done, current := reqs[..start], Init(reqs)[start..];
  }

  /** `k` faults for each phase but the last. */
  function Finished(count: nat, k: nat): nat {
    if count <= 1 then 0 else Finished(count - 1, k) + k
  }

  /** The cost of a request sequence grows, over any window of at most `k` distinct
      pages, by at most one for each of them. */
  ghost predicate WindowBounded(cost: seq<int> -> nat, k: nat) {
    cost([]) == 0 && forall before, w :: |Elems(w)| <= k ==> OnceEach(cost, before, w)
  }

  ghost predicate OnceEach(cost: seq<int> -> nat, before: seq<int>, w: seq<int>) {
    cost(before + w) <= cost(before) + |Elems(w)|
  }

  /** Such a cost is at most `k` for each finished phase. */
  lemma {:induction false} FinishedPhases(cost: seq<int> -> nat, reqs: seq<int>, k: nat)
    requires k >= 1 && reqs != [] && WindowBounded(cost, k)
    ensures cost(reqs[..Phases(reqs, k).start]) <= Finished(Phases(reqs, k).count, k)
  {
    var before := Init(reqs);
    if before != [] {
      FinishedPhases(cost, before, k);
      CurrentSize(before, k);
      var done, current := CutAt(reqs, Phases(before, k).start);
      assert OnceEach(cost, done, current);
    }
  }

  lemma PhasesPay(cost: seq<int> -> nat, reqs: seq<int>, k: nat)
    requires k >= 1 && reqs != [] && WindowBounded(cost, k)
    ensures cost(reqs) <= Finished(Phases(reqs, k).count, k) + |Current(reqs, k)|
  {
    var done, current := reqs[..Phases(reqs, k).start], reqs[Phases(reqs, k).start..];
    CurrentSize(reqs, k);
    FinishedPhases(cost, reqs, k);
    assert done + current == reqs;
    assert OnceEach(cost, done, current);
  }

  /** One fault to start and `k - h + 1` for each finished phase. */
  function Owed(count: nat, k: nat, h: nat): nat
    requires h <= k
  {
    if count <= 1 then 1 else Owed(count - 1, k, h) + (k - h + 1)
  }

  lemma {:induction false} OwedClosed(count: nat, k: nat, h: nat)
    requires h <= k && count >= 1
    ensures Owed(count, k, h) == (k - h + 1) * (count - 1) + 1
  {
    if count > 1 {
      OwedClosed(count - 1, k, h);
      Spread(k - h + 1, count - 2, 1);
    }
  }

  lemma {:induction false} FinishedClosed(count: nat, k: nat)
    requires count >= 1
    ensures Finished(count, k) == k * (count - 1)
  {
    if count > 1 {
      FinishedClosed(count - 1, k);
      Spread(k, count - 2, 1);
    }
  }

  /** The bookkeeping of the lower bound: after `faults` faults, of which `owed` are
      accounted for by finished phases, all pages of the current phase and all held
      pages lie in `e`, and `e` has grown only by faults. */
  ghost predicate Account(phase: set<int>, held: set<int>, e: set<int>, h: nat, faults: nat, owed: nat) {
    phase <= e && held <= e && faults >= owed && |e| <= h + faults - owed
  }

  lemma SamePhase(phase: set<int>, held: set<int>, e: set<int>, h: nat, faults: nat, owed: nat, p: int, held': set<int>)
    requires Account(phase, held, e, h, faults, owed) && held' <= held + {p}
    ensures Account(phase + {p}, held', e + {p}, h, faults + if p in held then 0 else 1, owed)
  {
    if p in held {
      assert e + {p} == e;
    }
  }

  /** A page that does not fit a full phase: if the schedule has touched only the
      phase's own pages it must load this one, otherwise it has faulted enough. */
  lemma NewPhase(phase: set<int>, held: set<int>, e: set<int>, h: nat, faults: nat, owed: nat, p: int, held': set<int>, k: nat)
    requires Account(phase, held, e, h, faults, owed) && p in held' && |held'| <= h <= k
    requires |phase| <= k < |phase + {p}|
    ensures Account({p}, held', held', h, faults + if p in held then 0 else 1, owed + (k - h + 1))
  {
    assert p !in phase;
    assert |phase + {p}| == |phase| + 1;
    SubsetCard(phase, e);
    if p in held {
      SubsetCard(phase + {p}, e);
    }
  }

  lemma FirstRequestPays(reqs: seq<int>, c: seq<set<int>>, k: nat, h: nat)
    requires 1 <= h <= k && |reqs| == 1 && Schedule(reqs, c, h)
    ensures Account(Current(reqs, k), c[1], c[1], h, ScheduleFaults(reqs, c), Owed(Phases(reqs, k).count, k, h))
  {
    assert Serves(c, 0, reqs[0], h);
    assert Init(reqs) == [];
    assert Phases(reqs, k) == Cut(1, 0);
    assert reqs[0..] == reqs;
    assert Current(reqs, k) == {reqs[0]};
    assert ScheduleFaults(reqs, c) == 1;
  }

  lemma NextAccount(phase: set<int>, phase': set<int>, held: set<int>, held': set<int>, e: set<int>,
                    k: nat, h: nat, faults: nat, owed: nat, owed': nat, p: int, same: bool) returns (e': set<int>)
    requires Account(phase, held, e, h, faults, owed)
    requires h <= k && |phase| <= k && |held'| <= h && p in held' && held' <= held + {p}
    requires same ==> phase' == phase + {p} && owed' == owed
    requires !same ==> phase' == {p} && owed' == owed + (k - h + 1) && |phase + {p}| > k
    ensures Account(phase', held', e', h, faults + if p in held then 0 else 1, owed')
  {
    if same {
      SamePhase(phase, held, e, h, faults, owed, p, held');
      e' := e + {p};
    } else {
      NewPhase(phase, held, e, h, faults, owed, p, held', k);
      e' := held';
    }
  }

  /** One more request. */
  lemma NextRequestPays(reqs: seq<int>, c: seq<set<int>>, c': seq<set<int>>, k: nat, h: nat, e: set<int>)
    returns (e': set<int>)
    requires 1 <= h <= k && |reqs| >= 2 && |c| == |reqs| + 1 && c' == c[..|reqs|]
    requires Serves(c, |reqs| - 1, Last(reqs), h)
    requires Account(Current(Init(reqs), k), c'[|reqs| - 1], e, h,
                     ScheduleFaults(Init(reqs), c'), Owed(Phases(Init(reqs), k).count, k, h))
    ensures Account(Current(reqs, k), c[|reqs|], e', h, ScheduleFaults(reqs, c), Owed(Phases(reqs, k).count, k, h))
  {
    var before, n := Init(reqs), |reqs|;
    var cut, cut' := Phases(before, k), Phases(reqs, k);
    CurrentGrows(reqs, k);
    CurrentSize(before, k);
    var phase, phase' := Current(before, k), Current(reqs, k);
    var faults, owed, owed' := ScheduleFaults(before, c'), Owed(cut.count, k, h), Owed(cut'.count, k, h);
    assert ScheduleFaults(reqs, c) == faults + if Last(reqs) in c[n - 1] then 0 else 1;
    assert cut' != cut ==> owed' == owed + (k - h + 1);
    hide Phases, Current, Owed, ScheduleFaults;
    e' := NextAccount(phase, phase', c[n - 1], c[n], e, k, h, faults, owed, owed', Last(reqs), cut' == cut);
  }

  /** What a schedule with `h` frames must pay: one fault to start, `k - h + 1` for
      each finished phase, and one for each page of the current phase beyond `h`. */
  lemma {:induction false} SchedulePays(reqs: seq<int>, c: seq<set<int>>, k: nat, h: nat) returns (e: set<int>)
    requires 1 <= h <= k && reqs != [] && Schedule(reqs, c, h)
    ensures Account(Current(reqs, k), c[|reqs|], e, h, ScheduleFaults(reqs, c), Owed(Phases(reqs, k).count, k, h))
  {
    if |reqs| == 1 {
      FirstRequestPays(reqs, c, k, h);
      e := c[1];
    } else {
      var c' := ScheduleInit(reqs, c, h);
      e := SchedulePays(Init(reqs), c', k, h);
      assert Serves(c, |reqs| - 1, reqs[|reqs| - 1], h);
      e := NextRequestPays(reqs, c, c', k, h, e);
    }
  }

  lemma ScheduleInit(reqs: seq<int>, c: seq<set<int>>, h: nat) returns (c': seq<set<int>>)
    requires reqs != [] && Schedule(reqs, c, h)
    ensures c' == c[..|reqs|] && Schedule(Init(reqs), c', h)
  {
    c' := c[..|reqs|];
    forall t | 0 <= t < |Init(reqs)|
      ensures Serves(c', t, Init(reqs)[t], h)
    {
      assert Serves(c, t, reqs[t], h);
    }
  }

  lemma TailGrows(reqs: seq<int>, start: nat)
    requires reqs != [] && start <= |Init(reqs)|
    ensures Elems(reqs[start..]) == Elems(Init(reqs)[start..]) + {Last(reqs)}
    ensures Elems(reqs[|reqs| - 1..]) == {Last(reqs)}
  {
    assert reqs[start..] == Init(reqs)[start..] + [Last(reqs)];
    assert reqs[|reqs| - 1..] == [Last(reqs)];
  }

  lemma CurrentGrows(reqs: seq<int>, k: nat)
    requires |reqs| >= 2
    ensures var cut, cut' := Phases(Init(reqs), k), Phases(reqs, k);
      && (cut' == cut ==> Current(reqs, k) == Current(Init(reqs), k) + {Last(reqs)})
      && (cut' != cut ==> cut'.count == cut.count + 1 && Current(reqs, k) == {Last(reqs)})
      && (cut' != cut ==> |Current(Init(reqs), k) + {Last(reqs)}| > k)
  {
    TailGrows(reqs, Phases(Init(reqs), k).start);
  }

  lemma FifoPays(reqs: seq<int>, k: nat)
    requires k >= 1 && reqs != []
    ensures FifoFaults(reqs, k) <= Finished(Phases(reqs, k).count, k) + |Current(reqs, k)|
  {
    var cost := (r: seq<int>) => FifoFaults(r, k);
    forall before, w | |Elems(w)| <= k
      ensures OnceEach(cost, before, w)
    {
      var _ := FifoWindow(before, w, k);
    }
    PhasesPay(cost, reqs, k);
  }

  lemma LruPays(reqs: seq<int>, k: nat)
    requires k >= 1 && reqs != []
    ensures LruFaults(reqs, k) <= Finished(Phases(reqs, k).count, k) + |Current(reqs, k)|
  {
    var cost := (r: seq<int>) => LruFaults(r, k);
    forall before, w | |Elems(w)| <= k
      ensures OnceEach(cost, before, w)
    {
      LruWindow(before, w, k);
    }
    PhasesPay(cost, reqs, k);
  }

  /** The two sides put together: pure arithmetic. */
  lemma Combine(k: nat, h: nat, count: nat, d: nat, alg: nat, opt: nat)
    requires 1 <= h <= k && d <= k && count >= 1
    requires alg <= Finished(count, k) + d
    requires opt >= Owed(count, k, h) && opt >= Owed(count, k, h) + d - h
    ensures (k - h + 1) * alg <= k * opt + (k - h) * (h - 1)
  {
    var r := k - h + 1;
    var m := count - 1;
    var km := k * m;
    OwedClosed(count, k, h);
    FinishedClosed(count, k);
    Monotone(r, alg, km + d);
    Spread(r, km, d);
    Swap(r, k, m);
    var rm := r * m;
    if d <= h {
      Monotone(r, d, h);
      assert r * h == k + (k - h) * (h - 1);
      Monotone(k, rm + 1, opt);
      Spread(k, rm, 1);
    } else {
      Monotone(k, rm + (1 + d - h), opt);
      Spread(k, rm, 1 + d - h);
      Surplus(k, h, d);
    }
  }

  lemma Surplus(k: int, h: int, d: int)
    requires 1 <= h <= d
    ensures (k - h + 1) * d <= k * (1 + d - h) + (k - h) * (h - 1)
  {
    assert k * (1 + d - h) + (k - h) * (h - 1) - (k - h + 1) * d == (h - 1) * (d - h);
  }

  /** The schedule's side in numbers. */
  lemma ScheduleBill(reqs: seq<int>, c: seq<set<int>>, k: nat, h: nat)
    requires 1 <= h <= k && reqs != [] && Schedule(reqs, c, h)
    ensures |Current(reqs, k)| <= k && Phases(reqs, k).count >= 1
    ensures var owed := Owed(Phases(reqs, k).count, k, h);
      ScheduleFaults(reqs, c) >= owed && ScheduleFaults(reqs, c) >= owed + |Current(reqs, k)| - h
  {
    var e := SchedulePays(reqs, c, k, h);
    SubsetCard(Current(reqs, k), e);
    CurrentSize(reqs, k);
  }

  lemma NoRequests(k: nat, h: nat, opt: nat)
    requires 1 <= h <= k
    ensures 0 <= k * opt + (k - h) * (h - 1)
  {
    Monotone(k - h, 0, h - 1);
  }

  /** FIFO with `k` frames against any schedule with `h <= k` frames. */
  lemma FifoCompetitive(reqs: seq<int>, c: seq<set<int>>, k: nat, h: nat)
    requires 1 <= h <= k && Schedule(reqs, c, h)
    ensures (k - h + 1) * FifoFaults(reqs, k) <= k * ScheduleFaults(reqs, c) + (k - h) * (h - 1)
  {
    if reqs == [] {
      NoRequests(k, h, ScheduleFaults(reqs, c));
    } else {
      ScheduleBill(reqs, c, k, h);
      FifoPays(reqs, k);
      Combine(k, h, Phases(reqs, k).count, |Current(reqs, k)|, FifoFaults(reqs, k), ScheduleFaults(reqs, c));
    }
  }

  /** The same for LRU. */
  lemma LruCompetitive(reqs: seq<int>, c: seq<set<int>>, k: nat, h: nat)
    requires 1 <= h <= k && Schedule(reqs, c, h)
    ensures (k - h + 1) * LruFaults(reqs, k) <= k * ScheduleFaults(reqs, c) + (k - h) * (h - 1)
  {
    if reqs == [] {
      NoRequests(k, h, ScheduleFaults(reqs, c));
    } else {
      ScheduleBill(reqs, c, k, h);
      LruPays(reqs, k);
      Combine(k, h, Phases(reqs, k).count, |Current(reqs, k)|, LruFaults(reqs, k), ScheduleFaults(reqs, c));
    }
  }

  /** With equally many frames: at most `k` times the faults of any schedule. */
  lemma KCompetitive(reqs: seq<int>, c: seq<set<int>>, k: nat)
    requires k >= 1 && Schedule(reqs, c, k)
    ensures FifoFaults(reqs, k) <= k * ScheduleFaults(reqs, c)
    ensures LruFaults(reqs, k) <= k * ScheduleFaults(reqs, c)
  {
    FifoCompetitive(reqs, c, k, k);
    LruCompetitive(reqs, c, k, k);
  }
}
