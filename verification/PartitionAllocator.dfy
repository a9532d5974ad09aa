/** The allocator itself: the lists are fields that the operations reassign. */
module PartitionAllocator {
  import opened Sequences
  import opened Sorting
  import opened Blocks
  import opened MemoryModel
  import opened Compaction
  import opened MemorySafety

  // ----- facts used by the scan and by the split

  lemma FirstIs(free: seq<Block>, request: int, i: nat)
    requires i <= |free| && (i < |free| ==> free[i].size >= request)
    requires forall j :: 0 <= j < i ==> free[j].size < request
    ensures First(free, request) == i
  {}

  lemma FindIs(live: seq<Process>, pid: int, i: nat)
    requires i <= |live| && (i < |live| ==> live[i].pid == pid)
    requires forall j :: 0 <= j < i ==> live[j].pid != pid
    ensures Find(live, pid) == i
  {}

  /** A split keeps the list in address order because the blocks are disjoint, and
      taking a block out keeps any order. */
  lemma CarveKeepsOrder(p: Policy, free: seq<Block>, i: nat, request: int, limit: int)
    requires Layout(free, limit) && InOrder(p, free) && i < |free| && 0 < request <= free[i].size
    requires p == FirstFit || free[i].size - request <= MIN_SLICE
    ensures InOrder(p, CarveAt(free, i, request))
  {
    assert forall j :: i < j < |free| ==> Apart(free[i], free[j]) && free[j].Within(limit);
  }

  // ----- merging

  /** In address order and not overlapping; touching is allowed. */
  ghost predicate Ascending(bs: seq<Block>, limit: int) {
    && (forall i :: 0 <= i < |bs| ==> bs[i].Within(limit))
    && (forall i, j :: 0 <= i < j < |bs| ==> bs[i].End() <= bs[j].start)
  }

  /** No two of the first `n` blocks touch. */
  ghost predicate GapsBefore(bs: seq<Block>, n: nat) {
    forall i, j :: 0 <= i < j < n && j < |bs| ==> bs[i].End() < bs[j].start
  }

  lemma SortedIsAscending(bs: seq<Block>, limit: int)
    requires Layout(bs, limit) && InOrder(FirstFit, bs)
    ensures Ascending(bs, limit)
  {
    forall i, j | 0 <= i < j < |bs|
      ensures bs[i].End() <= bs[j].start
    {
      assert Apart(bs[i], bs[j]) && bs[i].Within(limit) && bs[j].Within(limit);
      assert Key(FirstFit, bs[i]) <= Key(FirstFit, bs[j]);
    }
  }

  lemma AscendingIsCanonical(bs: seq<Block>, limit: int)
    requires Ascending(bs, limit) && GapsBefore(bs, |bs|)
    ensures Layout(bs, limit) && Coalesced(bs) && InOrder(FirstFit, bs)
  {
    forall i, j | 0 <= i < |bs| && 0 <= j < |bs|
      ensures bs[i].End() != bs[j].start
    {
      assert bs[i].Within(limit) && bs[j].Within(limit);
      assert j < i ==> bs[j].End() <= bs[i].start;
    }
  }

  /** Block `i - 1` after it has taken over block `i`. */
  function GrowAt(bs: seq<Block>, i: nat): seq<Block>
    requires 0 < i < |bs|
  {
    bs[i - 1 := Block(bs[i - 1].start, bs[i - 1].size + bs[i].size)]
  }

  function DropAt(bs: seq<Block>, i: nat): seq<Block>
    requires i < |bs|
  {
    bs[..i] + bs[i + 1..]
  }

  function MergeAt(bs: seq<Block>, i: nat): seq<Block>
    requires 0 < i < |bs|
  {
    DropAt(GrowAt(bs, i), i)
  }

  lemma MergeElements(bs: seq<Block>, i: nat)
    requires 0 < i < |bs|
    ensures var next := MergeAt(bs, i);
      && |next| == |bs| - 1
      && (forall j :: 0 <= j < i - 1 ==> next[j] == bs[j])
      && next[i - 1] == Block(bs[i - 1].start, bs[i - 1].size + bs[i].size)
      && (forall j :: i <= j < |next| ==> next[j] == bs[j + 1])
  {}

  lemma MergeKeepsAscending(bs: seq<Block>, i: nat, limit: int)
    requires Ascending(bs, limit) && 0 < i < |bs| && GapsBefore(bs, i)
    requires bs[i - 1].End() == bs[i].start
    ensures Ascending(MergeAt(bs, i), limit) && GapsBefore(MergeAt(bs, i), i)
  {
    MergeElements(bs, i);
  }

  lemma MergeKeepsCover(bs: seq<Block>, i: nat, limit: int)
    requires Ascending(bs, limit) && 0 < i < |bs| && bs[i - 1].End() == bs[i].start
    ensures forall x :: Covers(MergeAt(bs, i), x) <==> Covers(bs, x)
  {
    forall x
      ensures Covers(MergeAt(bs, i), x) <==> Covers(bs, x)
    {
      if Covers(bs, x) {
        MergeCoversMore(bs, i, limit, x);
      }
      if Covers(MergeAt(bs, i), x) {
        MergeCoversLess(bs, i, limit, x);
      }
    }
  }

  lemma MergeCoversMore(bs: seq<Block>, i: nat, limit: int, x: int)
    requires Ascending(bs, limit) && 0 < i < |bs| && bs[i - 1].End() == bs[i].start && Covers(bs, x)
    ensures Covers(MergeAt(bs, i), x)
  {
    MergeElements(bs, i);
    var next := MergeAt(bs, i);
    var j :| 0 <= j < |bs| && bs[j].Has(x);
    if j < i - 1 {
      assert next[j].Has(x);
    } else if j == i - 1 || j == i {
      assert bs[i - 1].Within(limit) && bs[i].Within(limit);
      assert next[i - 1].Has(x);
    } else {
      assert next[j - 1].Has(x);
    }
  }

  lemma MergeCoversLess(bs: seq<Block>, i: nat, limit: int, x: int)
    requires Ascending(bs, limit) && 0 < i < |bs| && bs[i - 1].End() == bs[i].start && Covers(MergeAt(bs, i), x)
    ensures Covers(bs, x)
  {
    MergeElements(bs, i);
    var next := MergeAt(bs, i);
    var j :| 0 <= j < |next| && next[j].Has(x);
    if j < i - 1 {
      assert bs[j].Has(x);
    } else if j == i - 1 {
      assert bs[i - 1].Has(x) || bs[i].Has(x);
    } else {
      assert bs[j + 1].Has(x);
    }
  }

  lemma GrowTotal(bs: seq<Block>, i: nat)
    requires 0 < i < |bs|
    ensures Total(GrowAt(bs, i)) == Total(bs) + bs[i].size
  {
    hide Total;
    var b := Block(bs[i - 1].start, bs[i - 1].size + bs[i].size);
    TotalUpdate(bs, i - 1, b);
  }

  lemma DropTotal(bs: seq<Block>, i: nat)
    requires i < |bs|
    ensures Total(DropAt(bs, i)) == Total(bs) - bs[i].size
  {
    hide Total;
    TotalSplit(bs, i);
  }

  lemma MergeKeepsTotal(bs: seq<Block>, i: nat)
    requires 0 < i < |bs|
    ensures Total(MergeAt(bs, i)) == Total(bs)
  {
    hide Total;
    GrowTotal(bs, i);
    DropTotal(GrowAt(bs, i), i);
  }

  /** One merge step of `free_mem`. */
  lemma MergeStep(bs: seq<Block>, i: nat, limit: int)
    requires Ascending(bs, limit) && 0 < i < |bs| && GapsBefore(bs, i)
    requires bs[i - 1].End() == bs[i].start
    ensures Ascending(MergeAt(bs, i), limit) && GapsBefore(MergeAt(bs, i), i)
    ensures forall x :: Covers(MergeAt(bs, i), x) <==> Covers(bs, x)
    ensures Total(MergeAt(bs, i)) == Total(bs)
    ensures |MergeAt(bs, i)| == |bs| - 1
  {
    MergeKeepsAscending(bs, i, limit);
    MergeKeepsCover(bs, i, limit);
    MergeKeepsTotal(bs, i);
  }

  lemma NoMergeKeepsGaps(bs: seq<Block>, i: nat, limit: int)
    requires Ascending(bs, limit) && i < |bs| && GapsBefore(bs, i)
    requires i > 0 ==> bs[i - 1].End() != bs[i].start
    ensures GapsBefore(bs, i + 1)
  {
    forall j | 0 <= j < i
      ensures bs[j].End() < bs[i].start
    {
      assert bs[i - 1].Within(limit) && bs[i - 1].End() <= bs[i].start;
      assert j < i - 1 ==> bs[j].End() < bs[i - 1].start;
    }
  }

  lemma PrependCover(r: Block, bs: seq<Block>)
    ensures forall x :: Covers([r] + bs, x) <==> r.Has(x) || Covers(bs, x)
    ensures Total([r] + bs) == r.size + Total(bs)
  {
    CoverConcat([r], bs);
    assert forall x :: Covers([r], x) <==> [r][0].Has(x);
    TotalConcat([r], bs);
    TotalOne(r);
  }

  lemma ReleasedLayout(m: Memory, free: seq<Block>, owner: nat)
    requires owner < |m.live| && Space(free, m.live, m.size) && m.free == [m.live[owner].range] + free
    ensures Layout(m.free, m.size)
  {
    assert Ranges(m.live)[owner].Within(m.size);
    PrependLayout(m.live[owner].range, free, m.size);
  }

  // ----- the steps of the larger methods

  lemma ServedAfterCompaction(m: Memory, request: int, m': Memory, inner: int, start: int)
    requires !Fits(m, request) && Total(m.free) >= request && Fits(Compacted(m), request)
    requires Allocated(Compacted(m), request, m', inner, start)
    ensures Allocated(m, request, m'.(lost := m'.lost + request), -1, start)
  {}

  lemma ReadyToRetry(m: Memory, request: int)
    requires Inv(m) && m.live != [] && 0 < request <= Total(m.free)
    ensures Inv(Compacted(m)) && Fits(Compacted(m), request)
  {
    CompactedInv(m);
    RetrySucceeds(m, request);
  }

  /** What `new_process` makes of the outcome of `allocate_mem`. */
  lemma Listed(m: Memory, request: int, mid: Memory, code: int, start: int, m': Memory, ret: int)
    requires Allocated(m.(lastPid := m.lastPid + 1), request, mid, code, start)
    requires m' == if code == 1 then mid.(live := [Process(mid.lastPid, Block(start, request))] + mid.live) else mid
    requires ret == if code != 1 then -1 else if mid.live == [] then 1 else 2
    ensures Created(m, request, m', ret)
  {
    assert code == 1 ==> mid.live == m.live;
    assert CreatedVia(m, request, mid, code, start, m', ret);
  }

  /** The state in which the menu entry leaves the allocator. */
  ghost predicate Done(m: Memory, op: Operation, u: Memory) {
    match op
    case SetSize(bytes) => u == Resized(m, bytes).(started := true)
    case SetAlgorithm(choice) => Reordered(m, choice, u)
    case Create(request) => request > 0 && Returns(m, request) && exists ret :: Created(m, request, u, ret)
    case Terminate(pid) => Terminated(m, pid, u)
    case Display => u == m
  }

  lemma CreatedKeepsFlag(m: Memory, request: int, u: Memory, ret: int)
    requires Created(m, request, u, ret)
    ensures u.started == m.started
  {
    var mid, code, start :| CreatedVia(m, request, mid, code, start, u, ret);
  }

  /** Setting the flag completes the turn. */
  lemma TurnCompleted(m: Memory, op: Operation, u: Memory)
    requires Done(m, op, u)
    ensures Step(m, op, u.(started := true))
  {
    if op.SetSize? {
      assert u.(started := m.started) == Resized(m, op.bytes);
    } else {
      if op.Create? {
        var ret :| Created(m, op.request, u, ret);
        CreatedKeepsFlag(m, op.request, u, ret);
      }
      assert u.(started := true).(started := m.started) == u;
    }
  }

  // ----- the address-sorted array of live blocks

  /** `arr` lists the positions of `live` by ascending address. */
  ghost predicate ByAddress(live: seq<Process>, arr: seq<int>) {
    && |arr| == |live|
    && (forall i :: 0 <= i < |arr| ==> 0 <= arr[i] < |live|)
    && (forall j :: 0 <= j < |live| ==> j in arr)
    && Distinct(arr)
    && (forall i, j :: 0 <= i < j < |arr| ==> live[arr[i]].range.start <= live[arr[j]].range.start)
  }

  lemma AddressOrder(live: seq<Process>, arr: seq<int>)
    requires multiset(arr) == multiset(seq(|live|, i => i))
    requires SortedBy(arr, i => if 0 <= i < |live| then live[i].range.start else 0)
    ensures ByAddress(live, arr)
  {
    var ids := seq(|live|, i => i);
    SameMembers(arr, ids);
    DistinctPermute(ids, arr);
    assert forall i :: 0 <= i < |arr| ==> arr[i] in ids;
    forall j | 0 <= j < |live|
      ensures j in arr
    {
      assert ids[j] == j && j in ids;
    }
    var key := (i: int) => if 0 <= i < |live| then live[i].range.start else 0;
    assert forall i, j :: 0 <= i < j < |arr| ==> key(arr[i]) <= key(arr[j]);
  }

  /** The total size of the blocks below the one at position `i` of the array. */
  ghost function BelowPosition(live: seq<Process>, arr: seq<int>, i: nat): int
    requires ByAddress(live, arr) && i <= |arr|
  {
    if i < |arr| then Below(live, live[arr[i]].range.start) else Total(Ranges(live))
  }

  lemma BelowFirst(live: seq<Process>, arr: seq<int>)
    requires ByAddress(live, arr) && live != []
    ensures BelowPosition(live, arr, 0) == 0
  {
    var a := live[arr[0]].range.start;
    forall j | 0 <= j < |live|
      ensures live[j].range.start >= a
    {
      assert j in arr;
      var k :| 0 <= k < |arr| && arr[k] == j;
    }
    BelowNone(live, a);
  }

  lemma BelowNext(live: seq<Process>, arr: seq<int>, i: nat)
    requires ByAddress(live, arr) && Disjoint(live) && i < |arr|
    ensures BelowPosition(live, arr, i + 1) == BelowPosition(live, arr, i) + live[arr[i]].range.size
  {
    var p := live[arr[i]].range;
    BelowEnd(live, arr[i]);
    forall j | 0 <= j < |live|
      ensures i + 1 < |arr| ==> !(p.End() <= live[j].range.start < live[arr[i + 1]].range.start)
      ensures i + 1 == |arr| ==> live[j].range.start < p.End()
    {
      assert j in arr;
      var k :| 0 <= k < |arr| && arr[k] == j;
      assert k <= i ==> live[j].range.start <= p.start;
    }
    if i + 1 < |arr| {
      assert Apart(p, live[arr[i + 1]].range);
      BelowSame(live, p.End(), live[arr[i + 1]].range.start);
    } else {
      BelowAll(live, p.End());
    }
  }

  class Allocator {
    var memSize: int
    var policy: Policy
    var freeList: seq<Block>
    var freeLen: int
    var live: seq<Process>
    var lastPid: nat
    var started: bool
    ghost var lost: int

    ghost function View(): Memory
      reads this
    {
      Memory(memSize, policy, freeList, live, lastPid, started, lost)
    }

    ghost predicate Counted()
      reads this
    {
      freeLen == |freeList|
    }

    ghost predicate Valid()
      reads this
    {
      Counted() && Inv(View())
    }

    constructor ()
      ensures Valid() && View() == INITIAL
    {
      memSize, policy := DEFAULT_MEM_SIZE, FirstFit;
      freeList, freeLen := [Block(0, DEFAULT_MEM_SIZE)], 1;
      live, lastPid, started, lost := [], 0, false, 0;
      new;
      InitialInv();
    }

    method RearrangeBy(p: Policy)
      requires Counted()
      modifies `freeList, `freeLen
      ensures Counted() && Arranged(p, freeList, old(freeList))
    {
      var tmp := freeList[..freeLen];
      assert tmp == freeList;
      freeList := Qsort(tmp, b => Key(p, b));
      freeLen := |tmp|;
      SameMembers(freeList, tmp);
      OrderOfKeys(p, freeList);
    }

    lemma OrderOfKeys(p: Policy, bs: seq<Block>)
      requires SortedBy(bs, b => Key(p, b))
      ensures InOrder(p, bs)
    {
      var key := (b: Block) => Key(p, b);
      assert forall b :: key(b) == Key(p, b);
    }

    /** What follows a split or a release: a list in address order stays as it is. */
    method SortBySize()
      requires Counted()
      modifies `freeList, `freeLen
      ensures Counted()
      ensures policy == FirstFit ==> freeList == old(freeList)
      ensures policy != FirstFit ==> Arranged(policy, freeList, old(freeList))
    {
      if policy == BestFit {
        RearrangeBy(BestFit);
      } else if policy == WorstFit {
        RearrangeBy(WorstFit);
      }
    }

    method DeleteFreeBlock(i: nat)
      requires i < |freeList|
      modifies `freeList, `freeLen
      ensures freeList == old(freeList)[..i] + old(freeList)[i + 1..] && freeLen == old(freeLen) - 1
    {
      freeLen := freeLen - 1;
      freeList := freeList[..i] + freeList[i + 1..];
    }

    method InsertFreeBlock(i: nat, b: Block)
      requires i <= |freeList|
      modifies `freeList, `freeLen
      ensures freeList == old(freeList)[..i] + [b] + old(freeList)[i..] && freeLen == old(freeLen) + 1
    {
      freeLen := freeLen + 1;
      freeList := freeList[..i] + [b] + freeList[i..];
    }

    /** The loop of `compact_memory` over the address-sorted array. */
    method MoveDown(arr: seq<int>) returns (nextStart: int)
      requires live != [] && Disjoint(live) && ByAddress(live, arr)
      modifies `live
      ensures live == Slide(old(live)) && nextStart == Total(Ranges(old(live)))
    {
      ghost var before := live;
      nextStart := 0;
      BelowFirst(before, arr);
      for i := 0 to |arr|
        invariant |live| == |before|
        invariant nextStart == BelowPosition(before, arr, i)
        invariant forall j :: 0 <= j < |live| ==> live[j] == before[j] || live[j] == Slide(before)[j]
        invariant forall j :: 0 <= j < i ==> live[arr[j]] == Slide(before)[arr[j]]
      {
        BelowNext(before, arr, i);
        var p := live[arr[i]];
        live := live[arr[i] := p.(range := Block(nextStart, p.range.size))];
        nextStart := nextStart + p.range.size;
      }
      forall j | 0 <= j < |live|
        ensures live[j] == Slide(before)[j]
      {
        assert j in arr;
      }
    }

    method CompactMemory() returns (ret: int)
      requires Valid()
      modifies `live, `freeList, `freeLen, `lost
      ensures ret == 1 && Counted() && View() == Compacted(old(View()))
    {
      var n := |live|;
      if n == 0 {
        return 1;
      }
      LayoutDisjoint(live, memSize);
      var nodes := live;
      var arr := Qsort(seq(n, i => i), i => if 0 <= i < n then nodes[i].range.start else 0);
      AddressOrder(live, arr);
      var nextStart := MoveDown(arr);

      freeList, freeLen := [], 0;
      if nextStart < memSize {
        freeList, freeLen := [Block(nextStart, memSize - nextStart)], 1;
      }
      lost := 0;
      ret := 1;
    }

    /** Serves the request from the block at `i`, the first that is large enough. */
    method TakeFrom(i: nat, request: int) returns (start: int)
      requires Counted() && Layout(freeList, memSize) && InOrder(policy, freeList)
      requires request > 0 && i == First(freeList, request) < |freeList|
      modifies `freeList, `freeLen, `lost
      ensures Counted() && Carved(old(View()), request, View(), start)
    {
      ghost var next := CarveAt(freeList, i, request);
      var b := freeList[i];
      start := b.start;
      lost := lost + Slack(b, request);
      if b.size - request <= MIN_SLICE {
        CarveKeepsOrder(policy, freeList, i, request, memSize);
        DeleteFreeBlock(i);
        assert freeList == next;
      } else {
        freeList := freeList[i := Block(b.start + request, b.size - request)];
        assert freeList == next;
        if policy == FirstFit {
          CarveKeepsOrder(policy, old(freeList), i, request, memSize);
        }
        SortBySize();
      }
    }

    method TotalFree() returns (total: int)
      ensures total == Total(freeList)
    {
      total := 0;
      for j := 0 to |freeList|
        invariant total == Total(freeList[..j])
      {
        assert freeList[..j + 1][..j] == freeList[..j];
        total := total + freeList[j].size;
      }
      assert freeList[..|freeList|] == freeList;
    }

    /** The scan of `allocate_mem`. */
    method FindFit(request: int) returns (i: nat)
      ensures i == First(freeList, request)
    {
      i := 0;
      while i < |freeList| && freeList[i].size < request
        invariant i <= |freeList|
        invariant forall j :: 0 <= j < i ==> freeList[j].size < request
      {
        i := i + 1;
      }
      FirstIs(freeList, request, i);
    }

    method AllocateMem(request: int) returns (ret: int, start: int)
      requires Valid() && request > 0 && Returns(View(), request)
      modifies `live, `freeList, `freeLen, `lost
      ensures Counted() && Allocated(old(View()), request, View(), ret, start)
      decreases if Fits(View(), request) then 0 else 1, 1
    {
      start := 0;
      var i := FindFit(request);
      if i < |freeList| {
        start := TakeFrom(i, request);
        return 1, start;
      }
      var total := TotalFree();
      ret := -1;
      if total >= request {
        start := CompactAndRetry(request);
      }
    }

    /** The last resort of `allocate_mem`: what the inner call returns is ignored. */
    method CompactAndRetry(request: int) returns (start: int)
      requires Valid() && 0 < request <= Total(freeList) && !Fits(View(), request) && live != []
      modifies `live, `freeList, `freeLen, `lost
      ensures Counted() && Allocated(old(View()), request, View(), -1, start)
      decreases 1, 0
    {
      hide Inv, Allocated, Fits;
      start := 0;
      ReadyToRetry(View(), request);
      var done := CompactMemory();
      if done == 1 {
        var inner;
        inner, start := AllocateMem(request);
        ServedAfterCompaction(old(View()), request, View(), inner, start);
        lost := lost + request;
      }
    }

    /** The merging loop of `free_mem` over the address-sorted list. */
    method MergeNeighbours()
      requires Counted() && Ascending(freeList, memSize)
      modifies `freeList, `freeLen
      ensures Counted() && Ascending(freeList, memSize) && GapsBefore(freeList, |freeList|)
      ensures forall x :: Covers(freeList, x) <==> Covers(old(freeList), x)
      ensures Total(freeList) == Total(old(freeList))
    {
      var i := 0;
      while i < |freeList|
        invariant Counted() && i <= |freeList|
        invariant Ascending(freeList, memSize) && GapsBefore(freeList, i)
        invariant forall x :: Covers(freeList, x) <==> Covers(old(freeList), x)
        invariant Total(freeList) == Total(old(freeList))
        decreases |freeList| - i
      {
        if i > 0 && freeList[i - 1].End() == freeList[i].start {
          MergeStep(freeList, i, memSize);
          MergeWithPrevious(i);
        } else {
          NoMergeKeepsGaps(freeList, i, memSize);
          i := i + 1;
        }
      }
    }

    method MergeWithPrevious(i: nat)
      requires Counted() && 0 < i < |freeList|
      modifies `freeList, `freeLen
      ensures Counted() && freeList == MergeAt(old(freeList), i)
    {
      freeList := freeList[i - 1 := Block(freeList[i - 1].start, freeList[i - 1].size + freeList[i].size)];
      DeleteFreeBlock(i);
    }

    /** The first half of `free_mem`: put the range at the head and sort by address. */
    method InsertByAddress(range: Block, ghost owner: nat)
      requires Valid() && owner < |live| && live[owner].range == range
      modifies `freeList, `freeLen
      ensures Counted() && Ascending(freeList, memSize)
      ensures forall x :: Covers(freeList, x) <==> Covers(old(freeList), x) || range.Has(x)
      ensures Total(freeList) == Total(old(freeList)) + range.size
    {
      InsertFreeBlock(0, range);
      assert freeList == [range] + old(freeList);
      PrependCover(range, old(freeList));
      ReleasedLayout(View(), old(freeList), owner);
      ghost var inserted := freeList;
      RearrangeBy(FirstFit);
      LayoutPermute(inserted, freeList, memSize);
      TotalPermute(inserted, freeList);
      SortedIsAscending(freeList, memSize);
    }

    method FreeMem(range: Block, ghost owner: nat) returns (ret: int)
      requires Valid() && owner < |live| && live[owner].range == range
      modifies `freeList, `freeLen
      ensures ret == 1 && Counted() && Released(old(View()), range, View())
    {
      InsertByAddress(range, owner);
      MergeNeighbours();
      AscendingIsCanonical(freeList, memSize);
      ghost var coalesced := freeList;
      SortBySize();
      LayoutPermute(coalesced, freeList, memSize);
      TotalPermute(coalesced, freeList);
      ret := 1;
    }

    // ----- the menu entries

    method SetMemSize(bytes: int) returns (ret: int)
      requires Valid()
      modifies `memSize, `freeList, `started
      ensures ret == if old(started) then 0 else 1
      ensures Counted() && View() == Resized(old(View()), bytes).(started := true)
    {
      if started {
        return 0;
      }
      if bytes > 0 {
        memSize := bytes;
        freeList := freeList[0 := freeList[0].(size := bytes)];
      }
      started := true;
      ret := 1;
    }

    method SetAlgorithm(choice: int)
      requires Valid()
      modifies `policy, `freeList, `freeLen
      ensures Counted() && Reordered(old(View()), choice, View())
    {
      if choice == 1 {
        policy := FirstFit;
      } else if choice == 2 {
        policy := BestFit;
      } else if choice == 3 {
        policy := WorstFit;
      }
      RearrangeBy(policy);
    }

    /** The first half of `new_process`: the next pid, and memory for it. */
    method AllocateForNext(request: int) returns (ret: int, start: int)
      requires Valid() && request > 0 && Returns(View(), request)
      modifies this
      ensures Counted()
      ensures Allocated(old(View()).(lastPid := old(lastPid) + 1), request, View(), ret, start)
    {
      hide Inv, Allocated;
      NextPid(View());
      lastPid := lastPid + 1;
      ret, start := AllocateMem(request);
    }

    /** The second half of `new_process`: the new process goes to the head of the list. */
    method Enter(code: int, p: Process) returns (ret: int)
      modifies `live
      ensures live == if code == 1 then [p] + old(live) else old(live)
      ensures ret == if code != 1 then -1 else if old(live) == [] then 1 else 2
    {
      if code == 1 && live == [] {
        live := [p];
        ret := 1;
      } else if code == 1 {
        live := [p] + live;
        ret := 2;
      } else {
        ret := -1;
      }
    }

    method NewProcess(request: int) returns (ret: int)
      requires Valid() && request > 0 && Returns(View(), request)
      modifies this
      ensures Counted() && Created(old(View()), request, View(), ret)
    {
      hide Inv, Allocated;
      ghost var m := View();
      var code, start := AllocateForNext(request);
      ghost var mid := View();
      ret := Enter(code, Process(lastPid, Block(start, request)));
      Listed(m, request, mid, code, start, View(), ret);
    }

    method FindProcess(pid: int) returns (index: int)
      ensures index == if Find(live, pid) < |live| then Find(live, pid) else -1
    {
      var i := 0;
      while i < |live|
        invariant i <= |live|
        invariant forall j :: 0 <= j < i ==> live[j].pid != pid
      {
        if live[i].pid == pid {
          FindIs(live, pid, i);
          return i;
        }
        i := i + 1;
      }
      FindIs(live, pid, i);
      index := -1;
    }

    method Dispose(pid: int) returns (ret: int)
      requires Find(live, pid) < |live|
      modifies `live
      ensures ret == if Find(old(live), pid) == 0 then 1 else 2
      ensures live == old(live)[..Find(old(live), pid)] + old(live)[Find(old(live), pid) + 1..]
    {
      if live[0].pid == pid {
        FindIs(live, pid, 0);
        live := live[1..];
        return 1;
      }
      var k := 1;
      while live[k].pid != pid
        invariant 1 <= k <= Find(live, pid)
        invariant forall j :: 0 <= j < k ==> live[j].pid != pid
        decreases |live| - k
      {
        k := k + 1;
      }
      FindIs(live, pid, k);
      live := live[..k] + live[k + 1..];
      ret := 2;
    }

    method KillProcess(pid: int)
      requires Valid()
      modifies this
      ensures Counted() && Terminated(old(View()), pid, View())
    {
      var i := FindProcess(pid);
      if i != -1 {
        var freed := FreeMem(live[i].range, i);
        var disposed := Dispose(pid);
      }
    }

    /** The menu entry. */
    method Choose(op: Operation)
      requires Valid()
      requires op.Create? ==> op.request > 0 && Returns(View(), op.request)
      modifies this
      ensures Counted() && Done(old(View()), op, View())
    {
      match op {
        case SetSize(bytes) =>
          var ret := SetMemSize(bytes);
        case SetAlgorithm(choice) =>
          SetAlgorithm(choice);
        case Create(request) =>
          var ret := NewProcess(request);
        case Terminate(pid) =>
          KillProcess(pid);
        case Display =>
      }
    }

    /** One turn of the main loop. */
    method Execute(op: Operation)
      requires Valid()
      requires op.Create? ==> op.request > 0 && Returns(View(), op.request)
      modifies this
      ensures Valid() && Step(old(View()), op, View())
    {
      Choose(op);
      ghost var u := View();
      started := true;
      TurnCompleted(old(View()), op, u);
      StepKeepsInv(old(View()), op, View());
    }
  }
}
