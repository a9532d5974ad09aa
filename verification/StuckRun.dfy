/** Runs of seven menu entries that go wrong.  A near-exact fit leaves ten bytes between
    two free blocks: with no live process compaction changes nothing, and a request never
    returns; with one, a request that compaction made room for is refused. */
module StuckRun {
  import opened Blocks
  import opened MemoryModel
  import opened MemorySafety
  import opened MemoryTheorems

  const FF := FirstFit
  const P1 := Process(1, Block(0, 30))
  const P2 := Process(2, Block(30, 30))
  const P3 := Process(3, Block(0, 20))

  const S1 := Memory(100, FF, [Block(0, 100)], [], 0, true, 0)
  const S2 := Memory(100, FF, [Block(30, 70)], [P1], 1, true, 0)
  const S3 := Memory(100, FF, [Block(60, 40)], [P2, P1], 2, true, 0)
  const S4 := Memory(100, FF, [Block(0, 30), Block(60, 40)], [P2], 2, true, 0)
  const S5 := Memory(100, FF, [Block(60, 40)], [P3, P2], 3, true, 10)
  const S6 := Memory(100, FF, [Block(0, 20), Block(60, 40)], [P2], 3, true, 10)
  const S7 := Memory(100, FF, [Block(0, 20), Block(30, 70)], [], 3, true, 10)

  const S8 := Memory(100, FF, [Block(80, 20)], [Process(2, Block(0, 30))], 4, true, 50)

  lemma CreateStep(m: Memory, request: int, m': Memory)
    requires m.policy == FF && request > 0 && m.started && Fits(m, request)
    requires var i := First(m.free, request);
      && m'.free == CarveAt(m.free, i, request)
      && m' == Memory(m.size, FF, m'.free, [Process(m.lastPid + 1, Block(m.free[i].start, request))] + m.live,
                      m.lastPid + 1, true, m.lost + Slack(m.free[i], request))
    requires InOrder(FF, m'.free)
    ensures Step(m, Create(request), m')
  {
    var m1 := m.(lastPid := m.lastPid + 1);
    var mid := m1.(free := m'.free, lost := m'.lost);
    var start := m.free[First(m.free, request)].start;
    assert Carved(m1, request, mid, start);
    var ret := if m.live == [] then 1 else 2;
    assert CreatedVia(m, request, mid, 1, start, m', ret);
    assert Created(m, request, m', ret);
  }

  lemma TerminateStep(m: Memory, pid: int, i: nat, m': Memory)
    requires m.started && i < |m.live| && i == Find(m.live, pid)
    requires m' == m.(free := m'.free, live := m.live[..i] + m.live[i + 1..])
    requires Layout(m'.free, m.size) && Coalesced(m'.free) && InOrder(m.policy, m'.free)
    requires forall a :: Covers(m'.free, a) <==> Covers(m.free, a) || m.live[i].range.Has(a)
    requires Total(m'.free) == Total(m.free) + m.live[i].range.size
    ensures Step(m, Terminate(pid), m')
  {}

  lemma Pair(a: Block, b: Block)
    ensures forall x :: Covers([a, b], x) <==> a.Has(x) || b.Has(x)
    ensures Total([a, b]) == a.size + b.size
  {
    assert [a] + [b] == [a, b];
    CoverConcat([a], [b]);
    CoverOne(a);
    CoverOne(b);
    TotalConcat([a], [b]);
    TotalOne(a);
    TotalOne(b);
  }

  lemma TerminateFirst()
    ensures Step(S3, Terminate(1), S4)
  {
    var m, m' := S3, S4;
    assert Find(m.live, 1) == 1;
    Pair(Block(0, 30), Block(60, 40));
    CoverOne(Block(60, 40));
    TotalOne(Block(60, 40));
    TerminateStep(m, 1, 1, m');
  }

  lemma TerminateThird()
    ensures Step(S5, Terminate(3), S6)
  {
    var m, m' := S5, S6;
    assert Find(m.live, 3) == 0;
    Pair(Block(0, 20), Block(60, 40));
    CoverOne(Block(60, 40));
    TotalOne(Block(60, 40));
    TerminateStep(m, 3, 0, m');
  }

  lemma TerminateSecond()
    ensures Step(S6, Terminate(2), S7)
  {
    var m, m' := S6, S7;
    assert Find(m.live, 2) == 0;
    Pair(Block(0, 20), Block(60, 40));
    Pair(Block(0, 20), Block(30, 70));
    TerminateStep(m, 2, 0, m');
  }

  lemma Creates()
    ensures Step(S1, Create(30), S2)
    ensures Step(S2, Create(30), S3)
    ensures Step(S4, Create(20), S5)
  {
    assert First(S1.free, 30) == 0;
    CreateStep(S1, 30, S2);
    assert First(S2.free, 30) == 0;
    CreateStep(S2, 30, S3);
    assert First(S4.free, 20) == 0;
    CreateStep(S4, 20, S5);
  }

  lemma Resizes()
    ensures Step(INITIAL, SetSize(100), S1)
  {
    assert Resized(INITIAL, 100).free == [Block(0, 100)];
  }

  lemma Extend(ms: seq<Memory>, ops: seq<Operation>, op: Operation, m: Memory, m': Memory)
    requires Run(ms, ops) && ms[|ops|] == m && Step(m, op, m')
    ensures Run(ms + [m'], ops + [op])
    ensures (ms + [m'])[|ops + [op]|] == m'
  {}

  lemma RunToSix() returns (ms: seq<Memory>, ops: seq<Operation>)
    ensures Run(ms, ops) && |ops| == 6 && ms[6] == S6
  {
    ms, ops := [INITIAL], [];
    Resizes();
    Extend(ms, ops, SetSize(100), INITIAL, S1);
    ms, ops := ms + [S1], ops + [SetSize(100)];
    Creates();
    Extend(ms, ops, Create(30), S1, S2);
    ms, ops := ms + [S2], ops + [Create(30)];
    Extend(ms, ops, Create(30), S2, S3);
    ms, ops := ms + [S3], ops + [Create(30)];
    TerminateFirst();
    Extend(ms, ops, Terminate(1), S3, S4);
    ms, ops := ms + [S4], ops + [Terminate(1)];
    Extend(ms, ops, Create(20), S4, S5);
    ms, ops := ms + [S5], ops + [Create(20)];
    TerminateThird();
    Extend(ms, ops, Terminate(3), S5, S6);
    ms, ops := ms + [S6], ops + [Terminate(3)];
  }

  // ----- a request that never returns

  lemma LastDoesNotReturn()
    ensures !Returns(S7, 80) && Total(S7.free) == 90
  {
    Pair(Block(0, 20), Block(30, 70));
    assert S7.free == [Block(0, 20), Block(30, 70)];
    assert First(S7.free, 80) == 2;
  }

  /** The run is possible, its last state satisfies the invariant, and there the
      request for 80 of the 90 free bytes never returns. */
  lemma RequestGetsStuck() returns (ms: seq<Memory>, ops: seq<Operation>)
    ensures Run(ms, ops) && |ops| == 7 && ms[7] == S7
    ensures Inv(S7) && Total(S7.free) == 90
    ensures forall depth: nat :: !ReturnsWithin(S7, 80, depth)
  {
    ms, ops := RunToSix();
    TerminateSecond();
    Extend(ms, ops, Terminate(2), S6, S7);
    ms, ops := ms + [S7], ops + [Terminate(2)];
    RunKeepsInv(ms, ops, 7);
    LastDoesNotReturn();
    ReturnsExactly(S7, 80);
  }

  // ----- a request that is refused although compaction made room for it

  lemma SixIsFragmented()
    ensures !Fits(S6, 50) && Total(S6.free) == 60 && S6.live != []
  {
    Pair(Block(0, 20), Block(60, 40));
    assert S6.free == [Block(0, 20), Block(60, 40)];
    assert First(S6.free, 50) == 2;
  }

  lemma RefusedStep()
    ensures Step(S6, Create(50), S8)
  {
    var m := S6.(lastPid := 4);
    SixIsFragmented();
    TotalOne(Block(30, 30));
    assert Ranges(m.live) == [Block(30, 30)];
    assert m.live == [P2] && m.live[..0] == [];
    assert Below(m.live, 30) == Below([], 30) == 0;
    assert Slide(m.live)[0] == Process(2, Block(0, 30));
    var c := Compacted(m);
    assert c == Memory(100, FF, [Block(30, 70)], [Process(2, Block(0, 30))], 4, true, 0);
    assert First(c.free, 50) == 0;
    assert CarveAt(c.free, 0, 50) == [Block(80, 20)];
    assert Carved(c, 50, S8.(lost := 0), 30);
    assert CreatedVia(S6, 50, S8, -1, 30, S8, -1);
    assert Created(S6, 50, S8, -1);
  }

  /** 60 bytes are free in two pieces; the request for 50 moves the one process down,
      gets no memory, and costs the 50 bytes. */
  lemma RefusedAfterCompaction() returns (ms: seq<Memory>, ops: seq<Operation>)
    ensures Run(ms, ops) && |ops| == 7 && ms[6] == S6 && ops[6] == Create(50) && ms[7] == S8
    ensures !Fits(S6, 50) && Total(S6.free) == 60 && S6.live != []
    ensures |S8.live| == 1 && S8.lost == 50
  {
    ms, ops := RunToSix();
    SixIsFragmented();
    RefusedStep();
    Extend(ms, ops, Create(50), S6, S8);
    ms, ops := ms + [S8], ops + [Create(50)];
  }
}
