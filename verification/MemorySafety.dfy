/** The allocator's invariant over whole runs. */
module MemorySafety {
  import opened Sorting
  import opened Blocks
  import opened MemoryModel
  import opened Compaction

  // ----- carving a block

  lemma RemoveLayout(bs: seq<Block>, i: nat, limit: int)
    requires Layout(bs, limit) && i < |bs|
    ensures Layout(bs[..i] + bs[i + 1..], limit)
    ensures Coalesced(bs) ==> Coalesced(bs[..i] + bs[i + 1..])
  {
    var next := bs[..i] + bs[i + 1..];
    assert forall j :: 0 <= j < |next| ==> next[j] == bs[if j < i then j else j + 1];
  }

  lemma ShrinkLayout(bs: seq<Block>, i: nat, b: Block, limit: int)
    requires Layout(bs, limit) && Coalesced(bs) && i < |bs|
    requires b.size > 0 && bs[i].start < b.start && b.End() == bs[i].End()
    ensures Layout(bs[i := b], limit) && Coalesced(bs[i := b])
  {
    var next := bs[i := b];
    forall j | 0 <= j < |bs| && j != i
      ensures Apart(bs[j], b) && bs[j].End() != b.start && b.End() != bs[j].start
    {
      assert Apart(bs[j], bs[i]) && bs[j].Within(limit) && bs[i].End() != bs[j].start;
    }
    assert bs[i].Within(limit);
  }

  lemma CarveAtLayout(free: seq<Block>, i: nat, request: int, limit: int)
    requires Layout(free, limit) && Coalesced(free)
    requires i < |free| && 0 < request <= free[i].size
    ensures Layout(CarveAt(free, i, request), limit) && Coalesced(CarveAt(free, i, request))
  {
    if free[i].size - request <= MIN_SLICE {
      RemoveLayout(free, i, limit);
    } else {
      ShrinkLayout(free, i, Block(free[i].start + request, free[i].size - request), limit);
    }
  }

  lemma CarveAtTotal(free: seq<Block>, i: nat, request: int)
    requires i < |free|
    ensures Total(CarveAt(free, i, request)) + request + Slack(free[i], request) == Total(free)
  {
    if free[i].size - request <= MIN_SLICE {
      TotalSplit(free, i);
    } else {
      TotalUpdate(free, i, Block(free[i].start + request, free[i].size - request));
    }
  }

  /** A range that may become live: inside the memory and clear of every other range. */
  ghost predicate Room(r: Block, free: seq<Block>, live: seq<Process>, limit: int) {
    && r.Within(limit)
    && (forall j :: 0 <= j < |free| ==> Apart(free[j], r))
    && (forall j :: 0 <= j < |live| ==> Apart(r, live[j].range))
  }

  /** A block of the carved list is a block of the old one, or what is left of it. */
  lemma CarvedElement(free: seq<Block>, i: nat, request: int, j: nat) returns (k: nat)
    requires i < |free| && 0 < request <= free[i].size && j < |CarveAt(free, i, request)|
    ensures k < |free| && free[k].start <= CarveAt(free, i, request)[j].start
    ensures CarveAt(free, i, request)[j].End() == free[k].End()
    ensures k == i ==> free[i].start + request <= CarveAt(free, i, request)[j].start
  {
    k := if free[i].size - request <= MIN_SLICE && j >= i then j + 1 else j;
  }

  /** Everything next to the carved block was inside a free block before. */
  lemma CarveAtRoom(free: seq<Block>, live: seq<Process>, i: nat, request: int, limit: int)
    requires Space(free, live, limit)
    requires i < |free| && 0 < request <= free[i].size
    ensures Room(Block(free[i].start, request), CarveAt(free, i, request), live, limit)
    ensures Space(CarveAt(free, i, request), live, limit)
  {
    CarveAtLayout(free, i, request, limit);
    var next, r := CarveAt(free, i, request), Block(free[i].start, request);
    assert forall k :: 0 <= k < |free| && k != i ==> Apart(free[k], free[i]);
    assert free[i].Within(limit);
    hide CarveAt, Layout, Coalesced;
    forall j | 0 <= j < |next|
      ensures Apart(next[j], r) && forall l :: 0 <= l < |live| ==> Apart(next[j], live[l].range)
    {
      var k := CarvedElement(free, i, request, j);
    }
  }

  /** Neither property depends on the order of the free list. */
  lemma SpacePermute(a: seq<Block>, b: seq<Block>, live: seq<Process>, limit: int)
    requires multiset(a) == multiset(b) && Space(a, live, limit)
    ensures Space(b, live, limit)
    ensures forall r :: Room(r, a, live, limit) ==> Room(r, b, live, limit)
  {
    LayoutPermute(a, b, limit);
    SameMembers(b, a);
    assert forall i :: 0 <= i < |b| ==> b[i] in a;
  }

  /** A successful allocation: the new range is clear of every other range, and all
      bytes are accounted for. */
  lemma CarvedFacts(m: Memory, request: int, m': Memory, start: int)
    requires Inv(m) && request > 0 && Carved(m, request, m', start)
    ensures Space(m'.free, m.live, m.size) && InOrder(m.policy, m'.free)
    ensures Room(Block(start, request), m'.free, m.live, m.size)
    ensures Total(m'.free) + request + m'.lost == Total(m.free) + m.lost
    ensures m.lost <= m'.lost <= m.lost + MIN_SLICE
  {
    var i := First(m.free, request);
    var next := CarveAt(m.free, i, request);
    CarveAtRoom(m.free, m.live, i, request, m.size);
    CarveAtTotal(m.free, i, request);
    SpacePermute(next, m'.free, m.live, m.size);
    TotalPermute(next, m'.free);
  }

  lemma PrependLayout(r: Block, bs: seq<Block>, limit: int)
    requires Layout(bs, limit) && r.Within(limit)
    requires forall j :: 0 <= j < |bs| ==> Apart(r, bs[j])
    ensures Layout([r] + bs, limit)
  {}

  lemma SpaceWith(free: seq<Block>, live: seq<Process>, limit: int, p: Process)
    requires Space(free, live, limit) && Room(p.range, free, live, limit)
    ensures Space(free, [p] + live, limit)
    ensures Total(Ranges([p] + live)) == p.range.size + Total(Ranges(live))
  {
    assert Ranges([p] + live) == [p.range] + Ranges(live);
    PrependLayout(p.range, Ranges(live), limit);
    TotalConcat([p.range], Ranges(live));
    TotalOne(p.range);
  }

  lemma PidsWith(live: seq<Process>, p: Process, lastPid: nat)
    requires lastPid >= 1 && p.pid == lastPid && Pids(live, lastPid - 1)
    ensures Pids([p] + live, lastPid)
  {}

  lemma CreateFits(m: Memory, request: int, mid: Memory, start: int)
    requires Inv(m) && request > 0 && Carved(m, request, mid, start)
    requires m.lastPid >= 1 && Pids(m.live, m.lastPid - 1) && m.started
    ensures Inv(mid.(live := [Process(m.lastPid, Block(start, request))] + mid.live))
  {
    var p := Process(m.lastPid, Block(start, request));
    CarvedFacts(m, request, mid, start);
    SpaceWith(mid.free, m.live, m.size, p);
    PidsWith(m.live, p, m.lastPid);
  }

  // ----- compaction

  lemma UsedBound(m: Memory)
    requires Inv(m)
    ensures 0 <= Total(m.free) && 0 <= Total(Ranges(m.live)) <= m.size - Total(m.free)
  {
    assert forall i :: 0 <= i < |m.free| ==> m.free[i].Within(m.size);
    TotalNonNegative(m.free);
    var rs := Ranges(m.live);
    assert forall i :: 0 <= i < |rs| ==> rs[i].Within(m.size);
    TotalNonNegative(rs);
  }

  lemma SpaceAfterSlide(live: seq<Process>, limit: int)
    requires Layout(Ranges(live), limit) && Total(Ranges(live)) <= limit
    ensures var used := Total(Ranges(live));
      Space(if used < limit then [Block(used, limit - used)] else [], Slide(live), limit)
  {
    CompactionKeepsMeaning(live, limit);
    hide Total, Slide, Covers;
    var used, rs := Total(Ranges(live)), Ranges(Slide(live));
    assert forall i :: 0 <= i < |rs| ==> rs[i].Within(used);
    if live == [] {
      assert used == 0 && rs == [];
    } else {
      assert rs[0].Within(used);
    }
  }

  lemma CompactedInv(m: Memory)
    requires Inv(m) && m.live != []
    ensures Inv(Compacted(m))
    ensures Total(Compacted(m).free) == Total(m.free) + m.lost
    ensures |Compacted(m).free| <= 1
  {
    UsedBound(m);
    hide Layout, Coalesced;
    SpaceAfterSlide(m.live, m.size);
    SlideTotal(m.live);
    var used := Total(Ranges(m.live));
    if used < m.size {
      TotalOne(Block(used, m.size - used));
    }
    SlidePids(m.live, m.lastPid);
  }

  lemma SlidePids(live: seq<Process>, lastPid: nat)
    requires Pids(live, lastPid)
    ensures Pids(Slide(live), lastPid)
  {}

  /** After compaction with a live process the retry succeeds on the first block, so
      `allocate_mem` nests at most once. */
  lemma RetrySucceeds(m: Memory, request: int)
    requires Inv(m) && m.live != [] && 0 < request <= Total(m.free)
    ensures Fits(Compacted(m), request) && First(Compacted(m).free, request) == 0
  {
    CompactedInv(m);
    var free := Compacted(m).free;
    assert free != [];
    TotalOne(free[0]);
    assert free == [free[0]];
    assert First(free, request) == 0;
  }

  lemma CreateAfterCompaction(m: Memory, request: int, m': Memory, start: int)
    requires Inv(m) && request > 0 && m.live != []
    requires Carved(Compacted(m), request, m'.(lost := m'.lost - request), start)
    ensures Inv(m')
    ensures m'.live == Slide(m.live)
    ensures request <= m'.lost <= request + MIN_SLICE
  {
    CompactedInv(m);
    CarvedFacts(Compacted(m), request, m'.(lost := m'.lost - request), start);
  }

  // ----- the operations

  lemma CarvedOnceStarted(m: Memory, request: int, m': Memory, start: int)
    requires Carved(m, request, m', start)
    ensures Carved(m.(started := true), request, m'.(started := true), start)
  {}

  /** Allocation does not look at the flag that fixes the memory size. */
  lemma AllocatedOnceStarted(m: Memory, request: int, m': Memory, ret: int, start: int)
    requires Allocated(m, request, m', ret, start)
    ensures Allocated(m.(started := true), request, m'.(started := true), ret, start)
  {
    hide Carved;
    if Fits(m, request) {
      CarvedOnceStarted(m, request, m', start);
    } else if Total(m.free) >= request {
      assert Compacted(m.(started := true)) == Compacted(m).(started := true);
      CarvedOnceStarted(Compacted(m), request, m'.(lost := m'.lost - request), start);
    }
  }

  lemma AllocateFails(m: Memory, request: int, m': Memory, start: int)
    requires Inv(m) && request > 0 && Returns(m, request)
    requires Allocated(m, request, m', -1, start)
    ensures Inv(m')
  {
    if Total(m.free) >= request {
      CreateAfterCompaction(m, request, m', start);
    }
  }

  lemma ServedMeans(m: Memory, request: int, mid: Memory, start: int)
    requires Allocated(m, request, mid, 1, start)
    ensures Carved(m, request, mid, start) && mid.lastPid == m.lastPid
  {}

  lemma ServedKeepsInv(m: Memory, request: int, mid: Memory, start: int)
    requires Inv(m) && request > 0
    requires Allocated(m.(lastPid := m.lastPid + 1), request, mid, 1, start)
    ensures Inv(mid.(live := [Process(mid.lastPid, Block(start, request))] + mid.live, started := true))
  {
    assert Pids(m.live, m.lastPid);
    hide *;
    var s, mid' := m.(lastPid := m.lastPid + 1, started := true), mid.(started := true);
    NextPid(m);
    ServedMeans(m.(lastPid := m.lastPid + 1), request, mid, start);
    CarvedOnceStarted(m.(lastPid := m.lastPid + 1), request, mid, start);
    CreateFits(s, request, mid', start);
    assert mid.(live := [Process(s.lastPid, Block(start, request))] + mid.live, started := true)
        == mid'.(live := [Process(s.lastPid, Block(start, request))] + mid'.live);
  }

  lemma RefusedKeepsInv(m: Memory, request: int, mid: Memory, start: int)
    requires Inv(m) && request > 0 && Returns(m, request)
    requires Allocated(m.(lastPid := m.lastPid + 1), request, mid, -1, start)
    ensures Inv(mid.(started := true))
  {
    hide Inv, Carved;
    NextPid(m);
    AllocatedOnceStarted(m.(lastPid := m.lastPid + 1), request, mid, -1, start);
    AllocateFails(m.(lastPid := m.lastPid + 1, started := true), request, mid.(started := true), start);
  }

  lemma AllocatedCode(m: Memory, request: int, mid: Memory, code: int, start: int)
    requires Allocated(m, request, mid, code, start)
    ensures code == 1 || code == -1
  {}

  lemma CreateKeepsInv(m: Memory, request: int, m': Memory, ret: int)
    requires Inv(m) && request > 0 && Returns(m, request) && Created(m, request, m', ret)
    ensures Inv(m'.(started := true))
  {
    hide Inv, Allocated, Returns;
    var mid, code, start :| CreatedVia(m, request, mid, code, start, m', ret);
    AllocatedCode(m.(lastPid := m.lastPid + 1), request, mid, code, start);
    if code == 1 {
      ServedKeepsInv(m, request, mid, start);
    } else {
      RefusedKeepsInv(m, request, mid, start);
    }
  }

  lemma NextPid(m: Memory)
    requires Inv(m)
    ensures Inv(m.(lastPid := m.lastPid + 1))
    ensures Inv(m.(lastPid := m.lastPid + 1, started := true))
  {
    assert Pids(m.live, m.lastPid + 1);
  }

  lemma RangesWithout(live: seq<Process>, i: nat, limit: int)
    requires i < |live| && Layout(Ranges(live), limit)
    ensures Layout(Ranges(live[..i] + live[i + 1..]), limit)
    ensures Total(Ranges(live[..i] + live[i + 1..])) == Total(Ranges(live)) - live[i].range.size
  {
    var rs := Ranges(live);
    hide Total, Layout;
    assert Ranges(live[..i] + live[i + 1..]) == rs[..i] + rs[i + 1..];
    RemoveLayout(rs, i, limit);
    TotalSplit(rs, i);
  }

  lemma SpaceWithout(m: Memory, i: nat, free': seq<Block>)
    requires Inv(m) && i < |m.live|
    requires Layout(free', m.size) && Coalesced(free')
    requires forall x :: Covers(free', x) <==> Covers(m.free, x) || m.live[i].range.Has(x)
    ensures Space(free', m.live[..i] + m.live[i + 1..], m.size)
    ensures Total(Ranges(m.live[..i] + m.live[i + 1..])) == Total(Ranges(m.live)) - m.live[i].range.size
  {
    RangesWithout(m.live, i, m.size);
    hide Inv, Layout, Coalesced, Total, Covers;
    var live' := m.live[..i] + m.live[i + 1..];
    forall a, b | 0 <= a < |free'| && 0 <= b < |live'|
      ensures Apart(free'[a], live'[b].range)
    {
      var other := if b < i then b else b + 1;
      assert live'[b] == m.live[other];
      ApartFromReleased(m, i, other, free', a);
    }
  }

  lemma PidsWithout(live: seq<Process>, i: nat, lastPid: nat)
    requires Pids(live, lastPid) && i < |live|
    ensures Pids(live[..i] + live[i + 1..], lastPid)
  {}

  lemma TerminateKeepsInv(m: Memory, pid: int, m': Memory)
    requires Inv(m) && Terminated(m, pid, m')
    ensures Inv(m'.(started := true))
  {
    var i := Find(m.live, pid);
    if i < |m.live| {
      SpaceWithout(m, i, m'.free);
      PidsWithout(m.live, i, m.lastPid);
    }
  }

  /** A block all of whose addresses were free or released stays clear of the other
      processes. */
  lemma ApartFromReleased(m: Memory, i: nat, other: nat, free': seq<Block>, a: nat)
    requires Inv(m) && i < |m.live| && other < |m.live| && i != other && a < |free'|
    requires Layout(free', m.size)
    requires forall x :: Covers(free', x) <==> Covers(m.free, x) || m.live[i].range.Has(x)
    ensures Apart(free'[a], m.live[other].range)
  {
    var f, o := free'[a], m.live[other].range;
    assert f.Within(m.size) && Ranges(m.live)[other].Within(m.size);
    var x := if f.start > o.start then f.start else o.start;
    assert f.Has(x) ==> Covers(free', x);
    assert Apart(Ranges(m.live)[i], Ranges(m.live)[other]) || Apart(Ranges(m.live)[other], Ranges(m.live)[i]);
    assert o.Has(x) ==> !m.live[i].range.Has(x) && !Covers(m.free, x);
  }

  lemma SetAlgorithmKeepsInv(m: Memory, choice: int, m': Memory)
    requires Inv(m) && Reordered(m, choice, m')
    ensures Inv(m'.(started := true))
  {
    SpacePermute(m.free, m'.free, m.live, m.size);
    TotalPermute(m.free, m'.free);
  }

  lemma SetSizeKeepsInv(m: Memory, bytes: int)
    requires Inv(m)
    ensures Inv(Resized(m, bytes).(started := true))
  {
    var m' := Resized(m, bytes);
    if m' != m {
      TotalOne(m.free[0]);
      assert m'.free == [Block(0, bytes)];
      TotalOne(m'.free[0]);
      assert Ranges(m.live) == [];
    }
  }

  lemma StepKeepsInv(m: Memory, op: Operation, m': Memory)
    requires Inv(m) && Step(m, op, m')
    ensures Inv(m')
  {
    var u := m'.(started := m.started);
    match op
    case SetSize(bytes) => SetSizeKeepsInv(m, bytes);
    case SetAlgorithm(choice) => SetAlgorithmKeepsInv(m, choice, u);
    case Create(request) =>
      var ret :| Created(m, request, u, ret);
      CreateKeepsInv(m, request, u, ret);
    case Terminate(pid) => TerminateKeepsInv(m, pid, u);
    case Display =>
  }

  lemma InitialInv()
    ensures Inv(INITIAL)
  {
    TotalOne(Block(0, DEFAULT_MEM_SIZE));
    assert Ranges([]) == [];
  }

  /** Safety over all runs. */
  lemma {:induction false} RunKeepsInv(ms: seq<Memory>, ops: seq<Operation>, i: nat)
    requires Run(ms, ops) && i < |ms|
    ensures Inv(ms[i])
  {
    if i == 0 {
      InitialInv();
    } else {
      RunKeepsInv(ms, ops, i - 1);
      StepKeepsInv(ms[i - 1], ops[i - 1], ms[i]);
    }
  }
}
