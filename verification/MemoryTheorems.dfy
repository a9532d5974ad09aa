/** What the allocator's invariant buys: placement, undo, accounting, and exactly when
    a request never returns. */
module MemoryTheorems {
  import opened Sorting
  import opened Blocks
  import opened MemoryModel
  import opened MemorySafety

  // ----- placement

  /** The first match is the lowest, the smallest or the largest sufficient block. */
  lemma PolicyChoice(m: Memory, request: int)
    requires Inv(m) && Fits(m, request)
    ensures var b := m.free[First(m.free, request)];
      forall j :: 0 <= j < |m.free| && m.free[j].size >= request ==>
        match m.policy
        case FirstFit => b.start <= m.free[j].start
        case BestFit => b.size <= m.free[j].size
        case WorstFit => b.size >= m.free[j].size
  {
    var i := First(m.free, request);
    forall j | 0 <= j < |m.free| && m.free[j].size >= request
      ensures Key(m.policy, m.free[i]) <= Key(m.policy, m.free[j])
    {
      assert i <= j;
    }
  }

  /** What a create that finds a block leaves behind. */
  lemma ServedState(m: Memory, request: int, m': Memory)
    requires Fits(m, request) && Step(m, Create(request), m')
    ensures var i := First(m.free, request);
      && m'.live == [Process(m.lastPid + 1, Block(m.free[i].start, request))] + m.live
      && m'.lastPid == m.lastPid + 1 && m'.size == m.size && m'.policy == m.policy
      && m'.lost == m.lost + Slack(m.free[i], request)
      && multiset(m'.free) == multiset(CarveAt(m.free, i, request))
  {
    var u := m'.(started := m.started);
    var ret :| Created(m, request, u, ret);
    var mid, code, start :| CreatedVia(m, request, mid, code, start, u, ret);
  }

  // The next two are corollaries of the outcomes that `Allocator.AllocateMem` refines.

  /** A request that some free block can serve is served, from inside that block. */
  lemma ServedWhenPossible(m: Memory, request: int, m': Memory, j: nat)
    requires Inv(m) && Step(m, Create(request), m') && j < |m.free| && m.free[j].size >= request
    ensures |m'.live| == |m.live| + 1 && m'.live[1..] == m.live
    ensures var p := m'.live[0];
      && p.pid == m.lastPid + 1 && p.range.size == request
      && forall a :: p.range.Has(a) ==> Covers(m.free, a)
  {
    ServedState(m, request, m');
    var i := First(m.free, request);
    assert forall a :: m'.live[0].range.Has(a) ==> m.free[i].Has(a);
  }

  /** A request gets memory iff a single block can hold it: compaction makes room but
      the create that triggered it is refused all the same. */
  lemma ServedIffFits(m: Memory, request: int, m': Memory)
    requires Inv(m) && Step(m, Create(request), m')
    ensures |m'.live| == |m.live| + 1 <==> Fits(m, request)
    ensures !Fits(m, request) ==> m'.live == m.live || m'.live == Slide(m.live)
  {
    if Fits(m, request) {
      ServedState(m, request, m');
    } else {
      LostAccounting(m, Create(request), m');
    }
  }

  /** The block a served request starts at: one of the sufficient blocks of `free`, and
      none of them comes before it under the policy. */
  ghost predicate StartsAtBest(free: seq<Block>, p: Policy, request: int, start: int) {
    exists i :: 0 <= i < |free| && free[i].start == start && free[i].size >= request
      && forall j :: 0 <= j < |free| && free[j].size >= request ==>
           match p
           case FirstFit => start <= free[j].start
           case BestFit => free[i].size <= free[j].size
           case WorstFit => free[i].size >= free[j].size
  }

  lemma ServedAtBest(m: Memory, request: int, m': Memory)
    requires Inv(m) && Fits(m, request) && Step(m, Create(request), m')
    ensures |m'.live| == |m.live| + 1 && StartsAtBest(m.free, m.policy, request, m'.live[0].range.start)
  {
    PolicyChoice(m, request);
    ServedState(m, request, m');
    var i := First(m.free, request);
    assert m.free[i].start == m'.live[0].range.start;
  }

  lemma BestInAnyOrder(a: seq<Block>, b: seq<Block>, p: Policy, request: int, start: int)
    requires multiset(a) == multiset(b) && StartsAtBest(a, p, request, start)
    ensures StartsAtBest(b, p, request, start)
  {
    SameMembers(a, b);
    var i :| 0 <= i < |a| && a[i].start == start && a[i].size >= request
      && forall j :: 0 <= j < |a| && a[j].size >= request ==>
           match p
           case FirstFit => start <= a[j].start
           case BestFit => a[i].size <= a[j].size
           case WorstFit => a[i].size >= a[j].size;
    assert a[i] in b;
    var k :| 0 <= k < |b| && b[k] == a[i];
    forall j | 0 <= j < |b| && b[j].size >= request
      ensures match p
              case FirstFit => start <= b[j].start
              case BestFit => b[k].size <= b[j].size
              case WorstFit => b[k].size >= b[j].size
    {
      assert b[j] in a;
      var l :| 0 <= l < |a| && a[l] == b[j];
    }
  }

  lemma FitsSome(free: seq<Block>, request: int, j: nat)
    requires j < |free| && free[j].size >= request
    ensures First(free, request) < |free|
  {}

  lemma Resorted(m: Memory, choice: int, m1: Memory)
    requires Step(m, SetAlgorithm(choice), m1)
    ensures multiset(m1.free) == multiset(m.free) && m1.live == m.live
    ensures choice == 1 ==> m1.policy == FirstFit
    ensures choice == 2 ==> m1.policy == BestFit
    ensures choice == 3 ==> m1.policy == WorstFit
    ensures choice !in {1, 2, 3} ==> m1.policy == m.policy
  {}

  lemma StillFits(a: seq<Block>, b: seq<Block>, request: int)
    requires multiset(a) == multiset(b) && exists j :: 0 <= j < |a| && a[j].size >= request
    ensures First(b, request) < |b|
  {
    SameMembers(a, b);
    var j :| 0 <= j < |a| && a[j].size >= request;
    assert a[j] in b;
    var k :| 0 <= k < |b| && b[k] == a[j];
    FitsSome(b, request, k);
  }

  /** What the menu's choices mean: after choice 1, 2 or 3 a request that some block can
      serve starts at the lowest, a smallest or a largest sufficient block; after any
      other choice the previous policy decides. */
  lemma AlgorithmThenCreate(m: Memory, choice: int, m1: Memory, request: int, m2: Memory)
    requires Inv(m) && Step(m, SetAlgorithm(choice), m1) && Step(m1, Create(request), m2)
    requires exists j :: 0 <= j < |m.free| && m.free[j].size >= request
    ensures |m2.live| == |m.live| + 1
    ensures var start := m2.live[0].range.start;
      && (choice == 1 ==> StartsAtBest(m.free, FirstFit, request, start))
      && (choice == 2 ==> StartsAtBest(m.free, BestFit, request, start))
      && (choice == 3 ==> StartsAtBest(m.free, WorstFit, request, start))
      && (choice !in {1, 2, 3} ==> StartsAtBest(m.free, m.policy, request, start))
  {
    hide Inv, Step, StartsAtBest, First;
    StepKeepsInv(m, SetAlgorithm(choice), m1);
    Resorted(m, choice, m1);
    StillFits(m.free, m1.free, request);
    ServedAtBest(m1, request, m2);
    BestInAnyOrder(m1.free, m.free, m1.policy, request, m2.live[0].range.start);
  }

  // ----- the first turns

  /** The first request leaves 10 bytes of the 1024: they are dropped.  It leaves 11: they
      stay free. */
  lemma SliceBoundary(m: Memory)
    ensures Step(INITIAL, Create(1014), m) ==> m.free == [] && m.lost == 10
    ensures Step(INITIAL, Create(1013), m) ==> m.free == [Block(1013, 11)] && m.lost == 0
  {
    assert First(INITIAL.free, 1014) == 0 && First(INITIAL.free, 1013) == 0;
    if Step(INITIAL, Create(1014), m) {
      ServedState(INITIAL, 1014, m);
      assert CarveAt(INITIAL.free, 0, 1014) == [];
      SameMembers(m.free, []);
    }
    if Step(INITIAL, Create(1013), m) {
      ServedState(INITIAL, 1013, m);
      assert CarveAt(INITIAL.free, 0, 1013) == [Block(1013, 11)];
      OneMember(m.free, Block(1013, 11));
    }
  }

  lemma OneMember(bs: seq<Block>, b: Block)
    requires multiset(bs) == multiset([b])
    ensures bs == [b]
  {
    SameMembers(bs, [b]);
    assert bs[0] in [b];
  }

  /** The size can be set in the first turn and never again. */
  lemma SizeIsFixed(m: Memory, op: Operation, m1: Memory, bytes: int, m2: Memory)
    requires Inv(m) && Step(m, op, m1) && Step(m1, SetSize(bytes), m2)
    ensures m2 == m1
    ensures op.SetSize? && !m.started ==> m1.size == if op.bytes > 0 then op.bytes else m.size
  {
    assert m1.(started := true) == m1;
  }

  /** What a create reports: -1 and no new process, 1 for the only process, 2 for any
      other. */
  lemma ReportedCode(m: Memory, request: int, m': Memory, ret: int)
    requires Created(m, request, m', ret)
    ensures ret == -1 || ret == 1 || ret == 2
    ensures ret == -1 <==> |m'.live| == |m.live|
    ensures ret == 1 <==> |m'.live| == |m.live| + 1 == 1
    ensures m'.lastPid == m.lastPid + 1 && m'.policy == m.policy && m'.size == m.size
  {
    var mid, code, start :| CreatedVia(m, request, mid, code, start, m', ret);
  }

  /** What a turn leaves alone: only a create adds a process and only terminating its pid
      removes one; only these two and setting the size touch the free blocks. */
  lemma TurnKeeps(m: Memory, op: Operation, m': Memory)
    requires Inv(m) && Step(m, op, m')
    ensures !op.Create? && !op.Terminate? ==> m'.live == m.live
    ensures op.SetAlgorithm? || op.Display? ==> multiset(m'.free) == multiset(m.free)
    ensures op.Terminate? ==> forall p :: p in m'.live <==> p in m.live && p.pid != op.pid
    ensures op.Terminate? && (forall p :: p in m.live ==> p.pid != op.pid) ==> m'.free == m.free
  {
    if op.Terminate? {
      assert Pids(m.live, m.lastPid) && Terminated(m, op.pid, m'.(started := m.started));
      hide Inv, Step, Terminated, Pids;
      OnlyThatLeaves(m, op.pid, m'.(started := m.started));
    } else {
      hide Inv;
    }
  }

  lemma OnlyThatLeaves(m: Memory, pid: int, m': Memory)
    requires Pids(m.live, m.lastPid) && Terminated(m, pid, m')
    ensures forall p :: p in m'.live <==> p in m.live && p.pid != pid
    ensures (forall p :: p in m.live ==> p.pid != pid) ==> m'.free == m.free
  {
    var i := Find(m.live, pid);
    if i < |m.live| {
      assert m.live[i] in m.live && m'.live == m.live[..i] + m.live[i + 1..];
      hide Terminated, Pids, Find;
      OthersStay(m.live, i, m.lastPid);
    } else {
      assert m' == m;
      hide Terminated;
      assert forall p :: p in m.live ==> p.pid != pid;
    }
  }

  lemma RestAt(live: seq<Process>, i: nat, j: nat)
    requires i < |live| && j < |live| && j != i
    ensures live[j] in live[..i] + live[i + 1..]
  {
    var rest := live[..i] + live[i + 1..];
    assert rest[if j < i then j else j - 1] == live[j];
  }

  lemma RestFrom(live: seq<Process>, i: nat, p: Process) returns (j: nat)
    requires i < |live| && p in live[..i] + live[i + 1..]
    ensures j < |live| && j != i && live[j] == p
  {
    var rest := live[..i] + live[i + 1..];
    var k :| 0 <= k < |rest| && rest[k] == p;
    j := if k < i then k else k + 1;
  }

  lemma OthersStay(live: seq<Process>, i: nat, lastPid: nat)
    requires Pids(live, lastPid) && i < |live|
    ensures forall p :: p in live[..i] + live[i + 1..] <==> p in live && p.pid != live[i].pid
  {
    forall p
      ensures p in live[..i] + live[i + 1..] <==> p in live && p.pid != live[i].pid
    {
      if p in live[..i] + live[i + 1..] {
        var j := RestFrom(live, i, p);
      }
      if p in live && p.pid != live[i].pid {
        var j :| 0 <= j < |live| && live[j] == p;
        RestAt(live, i, j);
      }
    }
  }

  // ----- the settings, told from the menu entries

  function CreatesIn(ops: seq<Operation>, n: nat): nat
    requires n <= |ops|
  {
    if n == 0 then 0 else CreatesIn(ops, n - 1) + if ops[n - 1].Create? then 1 else 0
  }

  /** The policy of the last valid choice. */
  function PolicyChosen(ops: seq<Operation>, n: nat): Policy
    requires n <= |ops|
  {
    if n == 0 then FirstFit
    else if ops[n - 1] == SetAlgorithm(1) then FirstFit
    else if ops[n - 1] == SetAlgorithm(2) then BestFit
    else if ops[n - 1] == SetAlgorithm(3) then WorstFit
    else PolicyChosen(ops, n - 1)
  }

  /** The size set in the first turn, or 1024. */
  function SizeChosen(ops: seq<Operation>, n: nat): int
    requires n <= |ops|
  {
    if n > 0 && ops[0].SetSize? && ops[0].bytes > 0 then ops[0].bytes else 1024
  }

  lemma TurnSets(m: Memory, op: Operation, m': Memory)
    requires Inv(m) && Step(m, op, m')
    ensures m'.started
    ensures m'.lastPid == m.lastPid + if op.Create? then 1 else 0
    ensures m'.policy == if op == SetAlgorithm(1) then FirstFit else if op == SetAlgorithm(2) then BestFit
                         else if op == SetAlgorithm(3) then WorstFit else m.policy
    ensures m'.size == if op.SetSize? && !m.started && op.bytes > 0 then op.bytes else m.size
  {
    var u := m'.(started := m.started);
    assert u.lastPid == m'.lastPid && u.policy == m'.policy && u.size == m'.size;
    if op.Create? {
      var ret :| Created(m, op.request, u, ret);
      ReportedCode(m, op.request, u, ret);
    }
  }

  /** In every state of every run the last pid counts the creates, served or not, the
      policy is that of the last valid choice, and the size that of the first turn. */
  lemma {:induction false} RunSettings(ms: seq<Memory>, ops: seq<Operation>, n: nat)
    requires Run(ms, ops) && n <= |ops|
    ensures ms[n].lastPid == CreatesIn(ops, n) && ms[n].policy == PolicyChosen(ops, n)
    ensures ms[n].size == SizeChosen(ops, n) && (ms[n].started <==> n > 0)
  {
    if n > 0 {
      RunSettings(ms, ops, n - 1);
      RunKeepsInv(ms, ops, n - 1);
      assert Step(ms[n - 1], ops[n - 1], ms[n]);
      hide Step, Inv;
      TurnSets(ms[n - 1], ops[n - 1], ms[n]);
    }
  }

  // ----- undo

  lemma CarveCover(free: seq<Block>, i: nat, request: int)
    requires i < |free| && 0 < request <= free[i].size && Slack(free[i], request) == 0
    ensures forall x :: Covers(free, x) <==> Covers(CarveAt(free, i, request), x) || Block(free[i].start, request).Has(x)
  {
    var b := free[i];
    var rest := free[..i] + free[i + 1..];
    assert free == free[..i] + ([b] + free[i + 1..]);
    CoverConcat(free[..i], [b] + free[i + 1..]);
    CoverConcat([b], free[i + 1..]);
    CoverConcat(free[..i], free[i + 1..]);
    CoverOne(b);
    if b.size - request > MIN_SLICE {
      var c := Block(b.start + request, b.size - request);
      assert CarveAt(free, i, request) == free[..i] + ([c] + free[i + 1..]);
      CoverConcat(free[..i], [c] + free[i + 1..]);
      CoverConcat([c], free[i + 1..]);
      CoverOne(c);
    }
  }

  lemma CoverOne(b: Block)
    ensures forall x :: Covers([b], x) <==> b.Has(x)
  {
    assert forall x :: Covers([b], x) <==> [b][0].Has(x);
  }

  /** Creating a process in a free block and terminating it at once gives back the
      live list, and the same free blocks iff the fit dropped no bytes. */
  lemma CreateThenTerminate(m: Memory, request: int, m1: Memory, m2: Memory)
    requires Inv(m) && Fits(m, request)
    requires Step(m, Create(request), m1) && Step(m1, Terminate(m1.lastPid), m2)
    ensures m2.live == m.live
    ensures m2.lost == m.lost + Slack(m.free[First(m.free, request)], request)
    ensures multiset(m2.free) == multiset(m.free) <==> Slack(m.free[First(m.free, request)], request) == 0
  {
    ServedState(m, request, m1);
    StepKeepsInv(m, Create(request), m1);
    StepKeepsInv(m1, Terminate(m1.lastPid), m2);
    TerminateNewest(m1, m2);
    RestoredIffNoSlack(m, request, m1.free, m2.free);
  }

  lemma TerminateNewest(m1: Memory, m2: Memory)
    requires m1.live != [] && m1.live[0].pid == m1.lastPid && Step(m1, Terminate(m1.lastPid), m2)
    ensures m2.live == m1.live[1..] && m2.lost == m1.lost && m2.size == m1.size
    ensures Released(m1, m1.live[0].range, m1.(free := m2.free))
  {
    assert Find(m1.live, m1.lastPid) == 0;
  }

  /** `free2` is what coalescing makes of a carved list and the carved range. */
  ghost predicate CarvedAndReturned(free: seq<Block>, i: nat, request: int, free2: seq<Block>, limit: int)
    requires i < |free|
  {
    && Layout(free2, limit) && Coalesced(free2)
    && (forall x :: Covers(free2, x) <==> Covers(CarveAt(free, i, request), x) || Block(free[i].start, request).Has(x))
    && Total(free2) == Total(CarveAt(free, i, request)) + request
  }

  lemma RestoredWithoutSlack(free: seq<Block>, i: nat, request: int, free2: seq<Block>, limit: int)
    requires Layout(free, limit) && Coalesced(free) && i < |free| && 0 < request <= free[i].size
    requires CarvedAndReturned(free, i, request, free2, limit) && Slack(free[i], request) == 0
    ensures multiset(free2) == multiset(free)
  {
    CarveCover(free, i, request);
    CanonicalForm(free2, free, limit);
  }

  lemma NotRestoredWithSlack(free: seq<Block>, i: nat, request: int, free2: seq<Block>, limit: int)
    requires i < |free| && CarvedAndReturned(free, i, request, free2, limit) && Slack(free[i], request) != 0
    ensures multiset(free2) != multiset(free)
  {
    CarveAtTotal(free, i, request);
    if multiset(free2) == multiset(free) {
      TotalPermute(free2, free);
    }
  }

  lemma RestoredIffNoSlack(m: Memory, request: int, free1: seq<Block>, free2: seq<Block>)
    requires Inv(m) && Fits(m, request) && request > 0
    requires var i := First(m.free, request);
      && multiset(free1) == multiset(CarveAt(m.free, i, request))
      && (forall x :: Covers(free2, x) <==> Covers(free1, x) || Block(m.free[i].start, request).Has(x))
      && Total(free2) == Total(free1) + request
    requires Layout(free2, m.size) && Coalesced(free2)
    ensures multiset(free2) == multiset(m.free) <==> Slack(m.free[First(m.free, request)], request) == 0
  {
    var i := First(m.free, request);
    var next := CarveAt(m.free, i, request);
    CarveAtLayout(m.free, i, request, m.size);
    LayoutPermute(next, free1, m.size);
    TotalPermute(next, free1);
    if Slack(m.free[i], request) == 0 {
      RestoredWithoutSlack(m.free, i, request, free2, m.size);
    } else {
      NotRestoredWithSlack(m.free, i, request, free2, m.size);
    }
  }

  // ----- termination of allocate_mem

  /** `allocate_mem` returns when its calls may nest to the given depth. */
  ghost predicate ReturnsWithin(m: Memory, request: int, depth: nat)
    decreases depth
  {
    && depth > 0
    && (Fits(m, request) || Total(m.free) < request || ReturnsWithin(Compacted(m), request, depth - 1))
  }

  lemma {:induction false} NeverReturns(m: Memory, request: int, depth: nat)
    requires !Returns(m, request)
    ensures !ReturnsWithin(m, request, depth)
  {
    if depth > 0 {
      NeverReturns(m, request, depth - 1);
    }
  }

  /** The call returns iff some block fits, the free bytes do not suffice, or some
      process is live; then one nested call is enough. */
  lemma ReturnsExactly(m: Memory, request: int)
    requires Inv(m) && request > 0
    ensures Returns(m, request) ==> ReturnsWithin(m, request, 2)
    ensures !Returns(m, request) ==> forall depth: nat :: !ReturnsWithin(m, request, depth)
  {
    if Returns(m, request) {
      if !Fits(m, request) && Total(m.free) >= request {
        RetrySucceeds(m, request);
        assert ReturnsWithin(Compacted(m), request, 1);
      }
      assert ReturnsWithin(m, request, 2);
    } else {
      forall depth: nat
        ensures !ReturnsWithin(m, request, depth)
      {
        NeverReturns(m, request, depth);
      }
    }
  }

  // ----- accounting

  ghost function Interval(lo: int, hi: int): (s: set<int>)
    ensures forall a :: a in s <==> lo <= a < hi
    ensures lo <= hi ==> |s| == hi - lo
    decreases hi - lo
  {
    if hi <= lo then {} else Interval(lo, hi - 1) + {hi - 1}
  }

  ghost function Cells(bs: seq<Block>): set<int> {
    if bs == [] then {}
    else Cells(bs[..|bs| - 1]) + Interval(bs[|bs| - 1].start, bs[|bs| - 1].End())
  }

  lemma {:induction false} CellsCovered(bs: seq<Block>)
    ensures forall a :: a in Cells(bs) <==> Covers(bs, a)
  {
    if bs != [] {
      var n := |bs| - 1;
      CellsCovered(bs[..n]);
      assert bs == bs[..n] + [bs[n]];
      CoverConcat(bs[..n], [bs[n]]);
      CoverOne(bs[n]);
    }
  }

  lemma DisjointUnion(a: set<int>, b: set<int>)
    requires a !! b
    ensures |a + b| == |a| + |b|
  {}

  lemma {:induction false} CellsCount(bs: seq<Block>, limit: int)
    requires Layout(bs, limit)
    ensures |Cells(bs)| == Total(bs)
  {
    if bs != [] {
      var n := |bs| - 1;
      CellsCount(bs[..n], limit);
      assert bs[n].Within(limit);
      CellsBefore(bs, limit);
      DisjointUnion(Cells(bs[..n]), Interval(bs[n].start, bs[n].End()));
    }
  }

  lemma CellsBefore(bs: seq<Block>, limit: int)
    requires Layout(bs, limit) && bs != []
    ensures Cells(bs[..|bs| - 1]) !! Interval(bs[|bs| - 1].start, bs[|bs| - 1].End())
  {
    var n := |bs| - 1;
    CellsCovered(bs[..n]);
    assert forall i :: 0 <= i < n ==> bs[..n][i] == bs[i] && Apart(bs[i], bs[n]);
  }

  lemma AccountedCells(m: Memory)
    requires Inv(m)
    ensures forall a :: a in Cells(m.free + Ranges(m.live)) <==> Covers(m.free, a) || Covers(Ranges(m.live), a)
    ensures Cells(m.free + Ranges(m.live)) <= Interval(0, m.size)
    ensures |Cells(m.free + Ranges(m.live))| == Total(m.free) + Total(Ranges(m.live))
  {
    var bs := m.free + Ranges(m.live);
    SpaceIsLayout(m);
    CellsCovered(bs);
    CoverConcat(m.free, Ranges(m.live));
    CoveredInside(bs, m.size);
    CellsCount(bs, m.size);
    TotalConcat(m.free, Ranges(m.live));
  }

  /** The addresses that neither list accounts for. */
  ghost function Unaccounted(m: Memory): (s: set<int>)
    requires Inv(m)
    ensures forall a :: a in s <==> 0 <= a < m.size && !Covers(m.free, a) && !Covers(Ranges(m.live), a)
  {
    AccountedCells(m);
    Interval(0, m.size) - Cells(m.free + Ranges(m.live))
  }

  lemma Complement(used: set<int>, all: set<int>)
    requires used <= all
    ensures |all - used| == |all| - |used|
  {
    assert (all - used) + used == all;
    DisjointUnion(all - used, used);
  }

  /** `lost` is not just bookkeeping: it counts the unaccounted addresses. */
  lemma LostIsUnaccounted(m: Memory)
    requires Inv(m)
    ensures |Unaccounted(m)| == m.lost
  {
    AccountedCells(m);
    Complement(Cells(m.free + Ranges(m.live)), Interval(0, m.size));
  }

  lemma SpaceIsLayout(m: Memory)
    requires Inv(m)
    ensures Layout(m.free + Ranges(m.live), m.size)
  {
    var rs := Ranges(m.live);
    var bs := m.free + rs;
    forall i, j | 0 <= i < j < |bs|
      ensures Apart(bs[i], bs[j])
    {
      if i < |m.free| <= j {
        assert Apart(m.free[i], m.live[j - |m.free|].range);
      } else if |m.free| <= i {
        assert Apart(rs[i - |m.free|], rs[j - |m.free|]);
      }
    }
  }

  lemma CoveredInside(bs: seq<Block>, limit: int)
    requires Layout(bs, limit)
    ensures forall x :: Covers(bs, x) ==> 0 <= x < limit
  {
    forall x | Covers(bs, x)
      ensures 0 <= x < limit
    {
      var i :| 0 <= i < |bs| && bs[i].Has(x);
      assert bs[i].Within(limit);
    }
  }

  /** How each operation changes the lost bytes. */
  lemma LostAccounting(m: Memory, op: Operation, m': Memory)
    requires Inv(m) && Step(m, op, m')
    ensures !op.Create? ==> m'.lost == m.lost
    ensures op.Create? && Fits(m, op.request) ==> m.lost <= m'.lost <= m.lost + MIN_SLICE
    ensures op.Create? && Total(m.free) < op.request ==> m'.lost == m.lost && m'.live == m.live
    ensures op.Create? && !Fits(m, op.request) && Total(m.free) >= op.request ==>
      op.request <= m'.lost <= op.request + MIN_SLICE && m'.live == Slide(m.live)
  {
    if op.Create? {
      if Fits(m, op.request) {
        ServedState(m, op.request, m');
        FitsWithinTotal(m, op.request);
      } else if Total(m.free) >= op.request {
        LostByCompaction(m, op.request, m');
      }
    }
  }

  lemma LostByCompaction(m: Memory, request: int, m': Memory)
    requires Inv(m) && Step(m, Create(request), m') && !Fits(m, request) && Total(m.free) >= request
    ensures request <= m'.lost <= request + MIN_SLICE && m'.live == Slide(m.live)
  {
    hide Inv, Carved;
    var u := m'.(started := m.started);
    var ret :| Created(m, request, u, ret);
    var mid, code, start :| CreatedVia(m, request, mid, code, start, u, ret);
    NextPid(m);
    AllocatedOnceStarted(m.(lastPid := m.lastPid + 1), request, mid, code, start);
    CreateAfterCompaction(m.(lastPid := m.lastPid + 1, started := true), request, m', start);
  }

  lemma FitsWithinTotal(m: Memory, request: int)
    requires Inv(m) && Fits(m, request)
    ensures Total(m.free) >= request
  {
    assert forall i :: 0 <= i < |m.free| ==> m.free[i].Within(m.size);
    TotalNonNegative(m.free);
  }

}
