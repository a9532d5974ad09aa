/** The ring buffer device: `rd == wr` stands for both empty and full. */
module RingBuffer {
  import opened Octets

  const MAXNUM := 100

  /** The device state; `buf` is the part of the buffer below `end`. */
  datatype Ring = Ring(buf: seq<Byte>, rd: nat, wr: nat, flag: bool) {
    ghost predicate Valid() { |buf| == MAXNUM && rd < MAXNUM && wr < MAXNUM }
  }

  function Initial(): Ring {
    Ring(seq(MAXNUM, _ => 0), 0, 0, false)
  }

  function Min(a: int, b: int): int {
    if a < b then a else b
  }

  function Wrap(i: nat): nat {
    if i == MAXNUM then 0 else i
  }

  /** How many bytes one write takes, and one read returns. */
  function Accepts(r: Ring, len: nat): nat
    requires r.Valid()
  {
    Min(len, if r.rd <= r.wr then MAXNUM - r.wr else r.rd - r.wr - 1)
  }

  function Yields(r: Ring, len: nat): nat
    requires r.Valid()
  {
    Min(len, if r.rd < r.wr then r.wr - r.rd else MAXNUM - r.rd)
  }

  function Write(r: Ring, bytes: seq<Byte>): Ring
    requires r.Valid()
  {
    var n := Accepts(r, |bytes|);
    Ring(r.buf[..r.wr] + bytes[..n] + r.buf[r.wr + n..], r.rd, Wrap(r.wr + n), true)
  }

  function Read(r: Ring, len: nat): (Ring, seq<Byte>)
    requires r.Valid()
  {
    var n := Yields(r, len);
    (Ring(r.buf, Wrap(r.rd + n), r.wr, false), r.buf[r.rd..r.rd + n])
  }

  /** A copy that fails inside a write: the room it was meant for holds anything, and
      neither position nor flag moves. */
  function WriteFault(r: Ring, junk: seq<Byte>): Ring
    requires r.Valid()
  {
    Write(r, junk).(wr := r.wr, flag := r.flag)
  }

  /** The bytes from the read to the write position; `full` settles `rd == wr`. */
  function Stored(r: Ring, full: bool): seq<Byte>
    requires r.Valid()
  {
    if r.rd < r.wr || (r.rd == r.wr && !full) then r.buf[r.rd..r.wr] else r.buf[r.rd..] + r.buf[..r.wr]
  }

  /** The ring holds the queue; it is full only with both positions at the start. */
  ghost predicate HoldsQueue(r: Ring, q: seq<Byte>) {
    && r.Valid() && |q| <= MAXNUM
    && q == Stored(r, |q| == MAXNUM)
    && (|q| == MAXNUM ==> r.rd == r.wr == 0)
  }

  lemma WriteParts(r: Ring, bytes: seq<Byte>)
    requires r.Valid()
    ensures var n, buf' := Accepts(r, |bytes|), Write(r, bytes).buf;
      && |buf'| == MAXNUM
      && buf'[..r.wr] == r.buf[..r.wr] && buf'[r.wr..r.wr + n] == bytes[..n] && buf'[r.wr + n..] == r.buf[r.wr + n..]
  {}

  lemma WriteAhead(r: Ring, q: seq<Byte>, bytes: seq<Byte>)
    requires HoldsQueue(r, q) && |q| < MAXNUM && r.rd <= r.wr
    ensures HoldsQueue(Write(r, bytes), q + bytes[..Accepts(r, |bytes|)])
  {
    var n, r' := Accepts(r, |bytes|), Write(r, bytes);
    WriteParts(r, bytes);
    assert r'.buf[r.rd..r.wr + n] == r'.buf[..r.wr][r.rd..] + r'.buf[r.wr..r.wr + n];
    assert r.buf[r.rd..r.wr] == r.buf[..r.wr][r.rd..];
    if r.wr + n == MAXNUM {
      assert r'.buf[r.rd..] + r'.buf[..0] == q + bytes[..n];
    }
  }

  lemma JoinBehind(was: seq<Byte>, next: seq<Byte>, rd: nat, wr: nat, data: seq<Byte>)
    requires |was| == |next| && wr + |data| < rd <= |next|
    requires next[..wr] == was[..wr] && next[wr..wr + |data|] == data && next[wr + |data|..] == was[wr + |data|..]
    ensures next[rd..] + next[..wr + |data|] == was[rd..] + was[..wr] + data
  {
    var m := wr + |data|;
    assert next[rd..] == next[m..][rd - m..] && was[rd..] == was[m..][rd - m..];
    assert next[..m] == next[..wr] + next[wr..m];
  }

  lemma WriteBehind(r: Ring, q: seq<Byte>, bytes: seq<Byte>)
    requires HoldsQueue(r, q) && r.rd > r.wr
    ensures HoldsQueue(Write(r, bytes), q + bytes[..Accepts(r, |bytes|)])
  {
    var n := Accepts(r, |bytes|);
    WriteParts(r, bytes);
    JoinBehind(r.buf, Write(r, bytes).buf, r.rd, r.wr, bytes[..n]);
  }

  lemma WriteOverFull(r: Ring, q: seq<Byte>, bytes: seq<Byte>)
    requires HoldsQueue(r, q) && |q| == MAXNUM && bytes != []
    ensures HoldsQueue(Write(r, bytes), bytes[..Accepts(r, |bytes|)])
    ensures Accepts(r, |bytes|) > 0
  {
    var n, r' := Accepts(r, |bytes|), Write(r, bytes);
    WriteParts(r, bytes);
    assert r'.buf[0..n] == bytes[..n];
    if n == MAXNUM {
      assert r'.buf[0..] + r'.buf[..0] == bytes[..n];
    }
  }

  lemma WriteNothing(r: Ring, q: seq<Byte>)
    requires HoldsQueue(r, q)
    ensures HoldsQueue(Write(r, []), q)
  {
    WriteParts(r, []);
    assert Write(r, []).buf == r.buf;
  }

  /** A write appends what it accepts to the queue iff the ring is not full or nothing
      is asked for; on a full ring it replaces everything that was stored. */
  lemma WriteRefines(r: Ring, q: seq<Byte>, bytes: seq<Byte>)
    requires HoldsQueue(r, q)
    ensures HoldsQueue(Write(r, bytes), q + bytes[..Accepts(r, |bytes|)]) <==> |q| < MAXNUM || bytes == []
    ensures |q| == MAXNUM && bytes != [] ==> HoldsQueue(Write(r, bytes), bytes[..Accepts(r, |bytes|)])
  {
    if bytes == [] {
      WriteNothing(r, q);
      assert q + bytes[..Accepts(r, 0)] == q;
    } else if |q| == MAXNUM {
      WriteOverFull(r, q, bytes);
    } else if r.rd <= r.wr {
      WriteAhead(r, q, bytes);
    } else {
      WriteBehind(r, q, bytes);
    }
  }

  /** A read takes a prefix of a non-empty queue; on an empty one it returns bytes
      that were never accepted, as many as asked for up to the end of the buffer. */
  lemma ReadRefines(r: Ring, q: seq<Byte>, len: nat)
    requires HoldsQueue(r, q)
    ensures |Read(r, len).1| == Yields(r, len)
    ensures len > 0 ==> Read(r, len).1 != []
    ensures q != [] ==> Read(r, len).1 <= q && HoldsQueue(Read(r, len).0, q[Yields(r, len)..])
  {
    var n := Yields(r, len);
    var (r', bytes) := Read(r, len);
    if q != [] {
      if r.rd < r.wr {
        assert q[..n] == r.buf[r.rd..r.rd + n];
        assert q[n..] == r.buf[r.rd + n..r.wr];
      } else {
        assert q == r.buf[r.rd..] + r.buf[..r.wr];
        assert q[..n] == r.buf[r.rd..r.rd + n];
        assert q[n..] == r.buf[r.rd + n..] + r.buf[..r.wr];
        if r.rd + n == MAXNUM {
          assert q[n..] == r.buf[0..r.wr];
        }
      }
    }
  }

  /** A failing copy does no harm to a ring that is not full; a full one it must leave
      as it was. */
  lemma FaultRefines(r: Ring, q: seq<Byte>, junk: seq<Byte>)
    requires HoldsQueue(r, q) && |junk| == Accepts(r, |junk|)
    ensures HoldsQueue(WriteFault(r, junk), q) <==> |q| < MAXNUM || junk <= r.buf
  {
    var r' := WriteFault(r, junk);
    assert junk[..|junk|] == junk;
    WriteParts(r, junk);
    if |q| == MAXNUM {
      assert r.buf[0..] + r.buf[..0] == r.buf && r'.buf[0..] + r'.buf[..0] == r'.buf;
      assert r'.buf == junk + r.buf[|junk|..];
      assert junk <= r.buf ==> r'.buf == r.buf;
    } else if r.rd <= r.wr {
      assert r'.buf[r.rd..r.wr] == r'.buf[..r.wr][r.rd..] && r.buf[r.rd..r.wr] == r.buf[..r.wr][r.rd..];
    } else {
      var m := r.wr + |junk|;
      assert r'.buf[r.rd..] == r'.buf[m..][r.rd - m..] && r.buf[r.rd..] == r.buf[m..][r.rd - m..];
    }
  }

  // ----- whole runs

  /** Calls that run to their end, copies that fail, and calls that a signal ends. */
  datatype Call = Put(bytes: seq<Byte>) | Get(len: nat) | PutFault(junk: seq<Byte>) | GetFault | Interrupted

  /** The ring with what was accepted and returned so far. */
  datatype History = History(ring: Ring, accepted: seq<Byte>, returned: seq<Byte>)

  /** The bytes accepted and not returned yet. */
  function Held(h: History): int {
    |h.accepted| - |h.returned|
  }

  function After(h: History, c: Call): History
    requires h.ring.Valid()
  {
    match c
    case Put(bytes) =>
      History(Write(h.ring, bytes), h.accepted + bytes[..Accepts(h.ring, |bytes|)], h.returned)
    case Get(len) =>
      History(Read(h.ring, len).0, h.accepted, h.returned + Read(h.ring, len).1)
    case PutFault(junk) => h.(ring := WriteFault(h.ring, junk))
    case GetFault => h.(ring := h.ring.(flag := false))
    case Interrupted => h
  }

  /** A read waits for the flag; a copy of nothing does not fail. */
  ghost predicate Step(h: History, c: Call, h': History) {
    && h.ring.Valid()
    && (c.Get? || c.GetFault? ==> h.ring.flag)
    && (c.PutFault? ==> 0 < |c.junk| == Accepts(h.ring, |c.junk|))
    && h' == After(h, c)
  }

  /** Bytes returned, then bytes stored, are the bytes accepted; a raised flag means
      that something is stored. */
  ghost predicate Conserves(h: History, q: seq<Byte>) {
    HoldsQueue(h.ring, q) && h.accepted == h.returned + q && (h.ring.flag ==> q != [])
  }

  /** A write is harmless iff it asks for a byte, or something is stored, and the ring
      is not full unless it asks for nothing.  One whose copy fails is harmless iff the
      ring is not full or the bytes already there were written again. */
  predicate Harmless(c: Call, h: History) {
    match c
    case Put(bytes) => if bytes == [] then Held(h) > 0 else Held(h) < MAXNUM
    case PutFault(junk) => Held(h) < MAXNUM || junk <= h.ring.buf
    case _ => true
  }

  lemma PutConserves(h: History, q: seq<Byte>, bytes: seq<Byte>, h': History)
    requires Conserves(h, q) && Step(h, Put(bytes), h') && Harmless(Put(bytes), h)
    ensures Conserves(h', q + bytes[..Accepts(h.ring, |bytes|)])
  {
    WriteRefines(h.ring, q, bytes);
  }

  lemma GetConserves(h: History, q: seq<Byte>, len: nat, h': History)
    requires Conserves(h, q) && Step(h, Get(len), h')
    ensures Yields(h.ring, len) <= |q| && Conserves(h', q[Yields(h.ring, len)..])
  {
    ReadRefines(h.ring, q, len);
    var n := Yields(h.ring, len);
    assert q == q[..n] + q[n..];
  }

  lemma StepConserves(h: History, q: seq<Byte>, c: Call, h': History) returns (q': seq<Byte>)
    requires Conserves(h, q) && Step(h, c, h') && Harmless(c, h)
    ensures Conserves(h', q')
    ensures Held(h) == |q|
  {
    q' := q;
    match c
    case Put(bytes) =>
      PutConserves(h, q, bytes, h');
      q' := q + bytes[..Accepts(h.ring, |bytes|)];
    case Get(len) =>
      GetConserves(h, q, len, h');
      q' := q[Yields(h.ring, len)..];
    case PutFault(junk) =>
      FaultRefines(h.ring, q, junk);
    case GetFault =>
    case Interrupted =>
  }

  lemma FaultBreaks(h: History, q: seq<Byte>, junk: seq<Byte>, h': History, q': seq<Byte>)
    requires Conserves(h, q) && Step(h, PutFault(junk), h') && !Harmless(PutFault(junk), h)
    ensures !Conserves(h', q')
  {
    FaultRefines(h.ring, q, junk);
    if h'.accepted == h'.returned + q' {
      assert h.returned + q == h.returned + q';
      assert q == (h.returned + q)[|h.returned|..] == q';
    }
  }

  /** A write that is not harmless breaks the refinement, so the condition is exact. */
  lemma HarmfulBreaks(h: History, q: seq<Byte>, c: Call, h': History, q': seq<Byte>)
    requires Conserves(h, q) && Step(h, c, h') && !Harmless(c, h)
    ensures !Conserves(h', q')
  {
    if c.PutFault? {
      FaultBreaks(h, q, c.junk, h', q');
    } else if c.bytes == [] {
      assert h.returned + q' == h.accepted ==> q' == [];
    } else {
      var n := Accepts(h.ring, |c.bytes|);
      assert h'.accepted == h'.returned + q' ==> |q'| == |q| + n;
    }
  }

  ghost predicate Run(hs: seq<History>, cs: seq<Call>) {
    && |hs| == |cs| + 1
    && hs[0] == History(Initial(), [], [])
    && forall i {:trigger cs[i]} :: 0 <= i < |cs| ==> Step(hs[i], cs[i], hs[i + 1])
  }

  /** Some queue of bytes explains the ring and what went in and out so far. */
  ghost predicate Explained(h: History) {
    exists q :: Conserves(h, q)
  }

  ghost predicate AllHarmless(hs: seq<History>, cs: seq<Call>)
    requires |hs| == |cs| + 1
  {
    forall i :: 0 <= i < |cs| ==> Harmless(cs[i], hs[i])
  }

  /** A run of harmless calls is a queue of bytes in every state. */
  lemma {:induction false} RunConserves(hs: seq<History>, cs: seq<Call>, i: nat)
    requires Run(hs, cs) && AllHarmless(hs, cs) && i < |hs|
    ensures Explained(hs[i])
  {
    if i == 0 {
      assert Conserves(hs[0], []);
    } else {
      RunConserves(hs, cs, i - 1);
      var q :| Conserves(hs[i - 1], q);
      assert Harmless(cs[i - 1], hs[i - 1]);
      var q' := StepConserves(hs[i - 1], q, cs[i - 1], hs[i]);
    }
  }

  /** A run stays a queue of bytes throughout iff every one of its calls is harmless. */
  lemma RunConservesExactly(hs: seq<History>, cs: seq<Call>)
    requires Run(hs, cs)
    ensures (forall i :: 0 <= i < |hs| ==> Explained(hs[i])) <==> AllHarmless(hs, cs)
  {
    if AllHarmless(hs, cs) {
      forall i | 0 <= i < |hs|
        ensures Explained(hs[i])
      {
        RunConserves(hs, cs, i);
      }
    } else {
      var i :| 0 <= i < |cs| && !Harmless(cs[i], hs[i]);
      if Explained(hs[i]) {
        var q :| Conserves(hs[i], q);
        if Explained(hs[i + 1]) {
          var q' :| Conserves(hs[i + 1], q');
          HarmfulBreaks(hs[i], q, cs[i], hs[i + 1], q');
        }
      }
    }
  }

  /** In a run of harmless calls the positions meet exactly when nothing or everything
      is held, and everything only with both of them at the start. */
  lemma PositionsMeet(hs: seq<History>, cs: seq<Call>, i: nat)
    requires Run(hs, cs) && AllHarmless(hs, cs) && i < |hs|
    ensures 0 <= Held(hs[i]) <= MAXNUM
    ensures hs[i].ring.rd == hs[i].ring.wr <==> Held(hs[i]) == 0 || Held(hs[i]) == MAXNUM
    ensures Held(hs[i]) == MAXNUM ==> hs[i].ring.rd == 0
  {
    RunConserves(hs, cs, i);
    var q :| Conserves(hs[i], q);
    assert Held(hs[i]) == |q|;
  }

  // ----- how many bytes a call moves

  lemma HeldBetween(r: Ring, q: seq<Byte>)
    requires HoldsQueue(r, q)
    ensures r.rd < r.wr ==> |q| == r.wr - r.rd
    ensures r.rd > r.wr ==> |q| == MAXNUM - r.rd + r.wr
    ensures r.rd == r.wr ==> q == [] || |q| == MAXNUM
  {}

  lemma PutMoves(h: History, bytes: seq<Byte>, h': History)
    requires Step(h, Put(bytes), h')
    ensures |h'.accepted| == |h.accepted| + Accepts(h.ring, |bytes|) && h'.returned == h.returned
    ensures h.accepted <= h'.accepted && h'.accepted[|h.accepted|..] <= bytes
  {}

  lemma GetMoves(h: History, len: nat, h': History)
    requires Step(h, Get(len), h')
    ensures |h'.returned| == |h.returned| + Yields(h.ring, len) && h'.accepted == h.accepted
  {}

  /** What a write takes: all it is given, or the room to the end of the buffer; when the
      stored bytes wrap around, the room below them but for one byte. */
  lemma PutTakes(hs: seq<History>, cs: seq<Call>, i: nat)
    requires Run(hs, cs) && AllHarmless(hs, cs) && i < |cs| && cs[i].Put?
    ensures var h, len := hs[i], |cs[i].bytes|;
      |hs[i + 1].accepted| == |h.accepted| +
        if h.ring.rd <= h.ring.wr then Min(len, 100 - h.ring.wr) else Min(len, 99 - Held(h))
    ensures hs[i].accepted <= hs[i + 1].accepted && hs[i + 1].accepted[|hs[i].accepted|..] <= cs[i].bytes
    ensures hs[i + 1].returned == hs[i].returned
  {
    RunConserves(hs, cs, i);
    assert Step(hs[i], cs[i], hs[i + 1]);
    hide Run, AllHarmless, Step, HoldsQueue;
    var q :| Conserves(hs[i], q);
    HeldBetween(hs[i].ring, q);
    PutMoves(hs[i], cs[i].bytes, hs[i + 1]);
  }

  /** What a read returns: all it asks for, or what is stored up to the write position
      or up to the end of the buffer. */
  lemma GetReturns(hs: seq<History>, cs: seq<Call>, i: nat)
    requires Run(hs, cs) && AllHarmless(hs, cs) && i < |cs| && cs[i].Get?
    ensures var h, len := hs[i], cs[i].len;
      |hs[i + 1].returned| == |h.returned| +
        if h.ring.rd < h.ring.wr then Min(len, Held(h)) else Min(len, 100 - h.ring.rd)
    ensures hs[i + 1].accepted == hs[i].accepted
  {
    RunConserves(hs, cs, i);
    assert Step(hs[i], cs[i], hs[i + 1]);
    hide Run, AllHarmless, Step, HoldsQueue;
    var q :| Conserves(hs[i], q);
    HeldBetween(hs[i].ring, q);
    GetMoves(hs[i], cs[i].len, hs[i + 1]);
  }

  // ----- stored bytes that no reader can reach

  /** The flag is down although bytes are held: the next reader sleeps. */
  predicate Stranded(h: History) {
    !h.ring.flag && Held(h) > 0
  }

  /** The last call that touched the flag was a read that left bytes behind. */
  predicate LeftBehind(hs: seq<History>, cs: seq<Call>, i: nat)
    requires i <= |cs| < |hs|
  {
    i > 0 &&
    match cs[i - 1]
    case Put(_) => false
    case Get(_) => |hs[i].returned| - |hs[i - 1].returned| < Held(hs[i - 1])
    case GetFault => Held(hs[i - 1]) > 0
    case _ => LeftBehind(hs, cs, i - 1)
  }

  /** In a run of harmless calls bytes are stranded iff the last read returned fewer
      than were held, and no write has come to its end since. */
  lemma {:induction false} StrandedExactly(hs: seq<History>, cs: seq<Call>, i: nat)
    requires Run(hs, cs) && AllHarmless(hs, cs) && i < |hs|
    ensures Stranded(hs[i]) <==> LeftBehind(hs, cs, i)
  {
    if i > 0 {
      StrandedExactly(hs, cs, i - 1);
      assert Step(hs[i - 1], cs[i - 1], hs[i]);
    }
  }

  // ----- runs that go wrong

  lemma Extend(hs: seq<History>, cs: seq<Call>, c: Call) returns (hs': seq<History>, cs': seq<Call>)
    requires Run(hs, cs) && hs[|cs|].ring.Valid() && Step(hs[|cs|], c, After(hs[|cs|], c))
    ensures hs' == hs + [After(hs[|cs|], c)] && cs' == cs + [c] && Run(hs', cs')
  {
    hs', cs' := hs + [After(hs[|cs|], c)], cs + [c];
  }

  /** A write of one more byte into a full ring: what was stored is gone. */
  lemma FullRingOverwritten(bytes: seq<Byte>, more: Byte) returns (hs: seq<History>, cs: seq<Call>)
    requires |bytes| == 100
    ensures Run(hs, cs) && cs == [Put(bytes), Put([more])]
    ensures Explained(hs[1]) && !Explained(hs[2])
    ensures HoldsQueue(hs[2].ring, [more])
  {
    hs, cs := [History(Initial(), [], [])], [];
    hs, cs := Extend(hs, cs, Put(bytes));
    RunConserves(hs, cs, 1);
    var q :| Conserves(hs[1], q);
    assert bytes[..MAXNUM] == bytes;
    hs, cs := Extend(hs, cs, Put([more]));
    WriteOverFull(hs[1].ring, q, [more]);
  }

  /** A write of nothing lets a reader in, which returns a byte that nobody wrote. */
  lemma EmptyWriteLetsReaderIn() returns (hs: seq<History>, cs: seq<Call>)
    ensures Run(hs, cs) && cs == [Put([]), Get(1)]
    ensures hs[2].accepted == [] && |hs[2].returned| == 1
    ensures !Explained(hs[2])
  {
    hs, cs := [History(Initial(), [], [])], [];
    hs, cs := Extend(hs, cs, Put([]));
    hs, cs := Extend(hs, cs, Get(1));
  }

  /** Two bytes written and one read: the other one is stranded. */
  lemma ShortReadStrands(a: Byte, b: Byte) returns (hs: seq<History>, cs: seq<Call>)
    ensures Run(hs, cs) && AllHarmless(hs, cs) && cs == [Put([a, b]), Get(1)]
    ensures Stranded(hs[2]) && Held(hs[2]) == 1
  {
    hs, cs := [History(Initial(), [], [])], [];
    hs, cs := Extend(hs, cs, Put([a, b]));
    hs, cs := Extend(hs, cs, Get(1));
  }

  // ----- the device

  class ScullDevice {
    const buffer: array<Byte>
    var rd: nat
    var wr: nat
    var flag: bool

    ghost function View(): Ring
      requires buffer.Length == MAXNUM + 1
      reads this, buffer
    {
      Ring(buffer[..MAXNUM], rd, wr, flag)
    }

    ghost predicate Valid()
      reads this, buffer
    {
      buffer.Length == MAXNUM + 1 && View().Valid()
    }

    constructor ()
      ensures Valid() && fresh(buffer) && View() == Initial()
    {
      buffer := new Byte[MAXNUM + 1](_ => 0);
      rd, wr, flag := 0, 0, false;
    }

    /** What a reader does once it has passed the wait for the flag. */
    method GlobalvarRead(len: nat) returns (bytes: seq<Byte>)
      requires Valid()
      modifies this
      ensures Valid() && (View(), bytes) == Read(old(View()), len)
    {
      flag := false;
      var n := if rd < wr then Min(len, wr - rd) else Min(len, MAXNUM - rd);
      bytes := buffer[rd..rd + n];
      ghost var buf := buffer[..MAXNUM];
      assert forall k :: 0 <= k < n ==> bytes[k] == buf[rd + k];
      assert bytes == buf[rd..rd + n];
      rd := rd + n;
      if rd == MAXNUM {
        rd := 0;
      }
    }

    method FailCopyToUser()
      requires Valid()
      modifies this
      ensures Valid() && View() == old(View()).(flag := false)
    {
      flag := false;
    }

    /** Copies into the room at the write position. */
    method CopyIn(bytes: seq<Byte>)
      requires buffer.Length == MAXNUM + 1 && wr + |bytes| <= MAXNUM
      modifies buffer
      ensures buffer[..MAXNUM] == old(buffer[..MAXNUM])[..wr] + bytes + old(buffer[..MAXNUM])[wr + |bytes|..]
    {
      forall i | 0 <= i < |bytes| {
        buffer[wr + i] := bytes[i];
      }
    }

    method GlobalvarWrite(bytes: seq<Byte>) returns (n: nat)
      requires Valid()
      modifies this, buffer
      ensures Valid() && View() == Write(old(View()), bytes) && n == Accepts(old(View()), |bytes|)
    {
      n := if rd <= wr then Min(|bytes|, MAXNUM - wr) else Min(|bytes|, rd - wr - 1);
      CopyIn(bytes[..n]);
      wr := wr + n;
      if wr == MAXNUM {
        wr := 0;
      }
      flag := true;
    }

    /** Whatever the failing copy leaves in the room it was meant for. */
    method FailCopyFromUser(junk: seq<Byte>)
      requires Valid() && |junk| == Accepts(View(), |junk|)
      modifies buffer
      ensures Valid() && View() == WriteFault(old(View()), junk)
    {
      assert junk[..|junk|] == junk;
      CopyIn(junk);
    }
  }
}
