/** The partition allocator's state and what each operation does to it. */
module MemoryModel {
  import opened Blocks

  const MIN_SLICE := 10
  const DEFAULT_MEM_SIZE := 1024

  datatype Policy = FirstFit | BestFit | WorstFit

  datatype Process = Process(pid: int, range: Block)

  /** `free` and `live` are the two linked lists from head to tail; `lost` counts the
      bytes that belong to neither. */
  datatype Memory = Memory(
    size: int,
    policy: Policy,
    free: seq<Block>,
    live: seq<Process>,
    lastPid: nat,
    started: bool,
    lost: int)

  datatype Operation =
    | SetSize(bytes: int)
    | SetAlgorithm(choice: int)
    | Create(request: int)
    | Terminate(pid: int)
    | Display

  const INITIAL := Memory(DEFAULT_MEM_SIZE, FirstFit, [Block(0, DEFAULT_MEM_SIZE)], [], 0, false, 0)

  function Ranges(live: seq<Process>): (rs: seq<Block>)
    ensures |rs| == |live| && forall i :: 0 <= i < |live| ==> rs[i] == live[i].range
  {
    seq(|live|, i requires 0 <= i < |live| => live[i].range)
  }

  /** The comparators: address, ascending size, descending size. */
  function Key(p: Policy, b: Block): int {
    match p
    case FirstFit => b.start
    case BestFit => b.size
    case WorstFit => -b.size
  }

  ghost predicate InOrder(p: Policy, bs: seq<Block>) {
    forall i, j :: 0 <= i < j < |bs| ==> Key(p, bs[i]) <= Key(p, bs[j])
  }

  ghost predicate Arranged(p: Policy, bs: seq<Block>, from: seq<Block>) {
    multiset(bs) == multiset(from) && InOrder(p, bs)
  }

  /** Free and live ranges are non-empty, inside `[0, limit)` and pairwise disjoint,
      and no two free ranges touch. */
  ghost predicate Space(free: seq<Block>, live: seq<Process>, limit: int) {
    && Layout(free, limit)
    && Layout(Ranges(live), limit)
    && (forall i, j :: 0 <= i < |free| && 0 <= j < |live| ==> Apart(free[i], live[j].range))
    && Coalesced(free)
  }

  ghost predicate Pids(live: seq<Process>, lastPid: nat) {
    && (forall i :: 0 <= i < |live| ==> 1 <= live[i].pid <= lastPid)
    && (forall i, j :: 0 <= i < j < |live| ==> live[i].pid != live[j].pid)
  }

  /** The invariant of the data structure. */
  ghost predicate Inv(m: Memory) {
    && m.size > 0
    && Space(m.free, m.live, m.size)
    && InOrder(m.policy, m.free)
    && Pids(m.live, m.lastPid)
    && m.lost >= 0
    && Total(m.free) + Total(Ranges(m.live)) + m.lost == m.size
    && (!m.started ==> m.free == [Block(0, m.size)] && m.live == [])
  }

  // ----- allocation

  /** The first block that is large enough, or the length of the list. */
  function First(free: seq<Block>, request: int): (i: nat)
    ensures i <= |free|
    ensures i < |free| ==> free[i].size >= request
    ensures forall j :: 0 <= j < i ==> free[j].size < request
  {
    if free == [] then 0
    else
      var i := First(free[..|free| - 1], request);
      if i < |free| - 1 || free[|free| - 1].size >= request then i else |free|
  }

  ghost predicate Fits(m: Memory, request: int) {
    First(m.free, request) < |m.free|
  }

  /** The bytes dropped by a near-exact fit. */
  function Slack(b: Block, request: int): int {
    if b.size - request <= MIN_SLICE then b.size - request else 0
  }

  /** The free list after the block at `i` serves the request, before any sorting. */
  function CarveAt(free: seq<Block>, i: nat, request: int): seq<Block>
    requires i < |free|
  {
    if free[i].size - request <= MIN_SLICE then free[..i] + free[i + 1..]
    else free[i := Block(free[i].start + request, free[i].size - request)]
  }

  /** A successful scan: `m'` is `m` with the request carved out at `start`. */
  ghost predicate Carved(m: Memory, request: int, m': Memory, start: int) {
    && Fits(m, request)
    && var i := First(m.free, request);
      && start == m.free[i].start
      && m' == m.(free := m'.free, lost := m.lost + Slack(m.free[i], request))
      && Arranged(m.policy, m'.free, CarveAt(m.free, i, request))
  }

  /** The size of the live blocks that start below `a`. */
  function Below(live: seq<Process>, a: int): int {
    if live == [] then 0
    else
      var p := live[|live| - 1];
      Below(live[..|live| - 1], a) + if p.range.start < a then p.range.size else 0
  }

  /** Every live block moves down to the total size of the blocks below it. */
  function Slide(live: seq<Process>): (r: seq<Process>)
    ensures |r| == |live|
    ensures forall i :: 0 <= i < |live| ==> r[i].pid == live[i].pid && r[i].range.size == live[i].range.size
  {
    seq(|live|, i requires 0 <= i < |live| =>
      live[i].(range := Block(Below(live, live[i].range.start), live[i].range.size)))
  }

  /** `compact_memory`: nothing happens when no process is live. */
  function Compacted(m: Memory): Memory {
    if m.live == [] then m
    else
      var used := Total(Ranges(m.live));
      m.(live := Slide(m.live),
         free := if used < m.size then [Block(used, m.size - used)] else [],
         lost := 0)
  }

  /** `allocate_mem` returns iff it need not compact, or compaction can help. */
  ghost predicate Returns(m: Memory, request: int) {
    Fits(m, request) || Total(m.free) < request || m.live != []
  }

  /** `allocate_mem` for a block that is not yet in the live list. */
  ghost predicate Allocated(m: Memory, request: int, m': Memory, ret: int, start: int) {
    if Fits(m, request) then ret == 1 && Carved(m, request, m', start)
    else if Total(m.free) < request then ret == -1 && m' == m
    else ret == -1 && Carved(Compacted(m), request, m'.(lost := m'.lost - request), start)
  }

  // ----- release

  /** The position of a pid in the live list, or its length. */
  function Find(live: seq<Process>, pid: int): (i: nat)
    ensures i <= |live|
    ensures i < |live| ==> live[i].pid == pid
    ensures forall j :: 0 <= j < i ==> live[j].pid != pid
  {
    if live == [] then 0
    else
      var i := Find(live[..|live| - 1], pid);
      if i < |live| - 1 || live[|live| - 1].pid == pid then i else |live|
  }

  /** `free_mem`: the free list becomes a coalesced list that covers exactly the old
      addresses and the released range, ordered by the policy. */
  ghost predicate Released(m: Memory, range: Block, m': Memory) {
    && m' == m.(free := m'.free)
    && Layout(m'.free, m.size) && Coalesced(m'.free) && InOrder(m.policy, m'.free)
    && (forall a :: Covers(m'.free, a) <==> Covers(m.free, a) || range.Has(a))
    && Total(m'.free) == Total(m.free) + range.size
  }

  // ----- operations

  ghost predicate Created(m: Memory, request: int, m': Memory, ret: int) {
    exists mid, code, start :: CreatedVia(m, request, mid, code, start, m', ret)
  }

  ghost predicate CreatedVia(m: Memory, request: int, mid: Memory, code: int, start: int, m': Memory, ret: int) {
    && Allocated(m.(lastPid := m.lastPid + 1), request, mid, code, start)
    && if code == 1
       then ret == (if m.live == [] then 1 else 2)
         && m' == mid.(live := [Process(mid.lastPid, Block(start, request))] + mid.live)
       else ret == -1 && m' == mid
  }

  ghost predicate Terminated(m: Memory, pid: int, m': Memory) {
    var i := Find(m.live, pid);
    if i == |m.live| then m' == m
    else Released(m, m.live[i].range, m'.(live := m.live)) && m'.live == m.live[..i] + m.live[i + 1..]
  }

  ghost predicate Reordered(m: Memory, choice: int, m': Memory) {
    && m'.policy == (match choice
                     case 1 => FirstFit
                     case 2 => BestFit
                     case 3 => WorstFit
                     case _ => m.policy)
    && m' == m.(policy := m'.policy, free := m'.free)
    && Arranged(m'.policy, m'.free, m.free)
  }

  function Resized(m: Memory, bytes: int): Memory {
    if m.started || bytes <= 0 || m.free == [] then m
    else m.(size := bytes, free := m.free[0 := m.free[0].(size := bytes)])
  }

  /** One turn of the main loop; every turn sets the flag that fixes the size. */
  ghost predicate Step(m: Memory, op: Operation, m': Memory) {
    && m'.started
    && var u := m'.(started := m.started);
       match op
       case SetSize(bytes) => u == Resized(m, bytes)
       case SetAlgorithm(choice) => Reordered(m, choice, u)
       case Create(request) => request > 0 && Returns(m, request) && exists ret :: Created(m, request, u, ret)
       case Terminate(pid) => Terminated(m, pid, u)
       case Display => u == m
  }

  ghost predicate Run(ms: seq<Memory>, ops: seq<Operation>) {
    && |ms| == |ops| + 1
    && ms[0] == INITIAL
    && forall i {:trigger ops[i]} :: 0 <= i < |ops| ==> Step(ms[i], ops[i], ms[i + 1])
  }
}
