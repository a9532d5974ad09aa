/** Invariants of the message device over every interleaving. */
module MessageSafety {
  import opened MessageQueue
  import opened Tickets

  function Bytes(q: seq<Message>): nat {
    if q == [] then 0 else Bytes(q[..|q| - 1]) + |q[|q| - 1]|
  }

  /** The bytes of the writers that were admitted but have not appended yet. */
  function InFlight(ws: seq<Writer>): nat {
    if ws == [] then 0
    else InFlight(ws[..|ws| - 1]) + Load(ws[|ws| - 1])
  }

  function Load(w: Writer): nat {
    if w.Admitted() then |w.data| else 0
  }

  ghost predicate SizesOk(ws: seq<Writer>) {
    forall t :: 0 <= t < |ws| && !ws[t].WIdle? ==> 1 <= |ws[t].data| <= MAX_MSG
  }

  /** A reader holds the number of the message it has removed, a writer that of the
      message it has appended, until the call returns with it. */
  function ReadTickets(rs: seq<Reader>): (r: seq<Ticket>)
    ensures |r| == |rs| && forall t :: 0 <= t < |rs| ==> r[t] == ReadTicket(rs[t])
  {
    seq(|rs|, t requires 0 <= t < |rs| => ReadTicket(rs[t]))
  }

  function ReadTicket(r: Reader): Ticket {
    match r
    case RCopy(_, index, _) => Ticket(index)
    case RWake(result) => ReadReceipt(result)
    case _ => NoTicket
  }

  function ReadReceipts(log: seq<Result>): (r: seq<Ticket>)
    ensures |r| == |log| && forall k :: 0 <= k < |log| ==> r[k] == ReadReceipt(log[k])
  {
    seq(|log|, k requires 0 <= k < |log| => ReadReceipt(log[k]))
  }

  function ReadReceipt(r: Result): Ticket {
    match r
    case Got(index, _, _) => Ticket(index)
    case Faulted(index) => Ticket(index)
    case _ => NoTicket
  }

  function WriteTickets(ws: seq<Writer>): (r: seq<Ticket>)
    ensures |r| == |ws| && forall t :: 0 <= t < |ws| ==> r[t] == WriteTicket(ws[t])
  {
    seq(|ws|, t requires 0 <= t < |ws| => WriteTicket(ws[t]))
  }

  function WriteTicket(w: Writer): Ticket {
    if w.WWake? then Ticket(w.index) else NoTicket
  }

  function WriteReceipts(log: seq<Result>): (r: seq<Ticket>)
    ensures |r| == |log| && forall k :: 0 <= k < |log| ==> r[k] == WriteReceipt(log[k])
  {
    seq(|log|, k requires 0 <= k < |log| => WriteReceipt(log[k]))
  }

  function WriteReceipt(r: Result): Ticket {
    if r.Wrote? then Ticket(r.index) else NoTicket
  }

  /** A read carries the first bytes of the message it names. */
  ghost predicate ReadHonest(r: Result, removed: seq<Message>) {
    r.Got? ==> r.index < |removed| && r.bytes == Truncate(removed[r.index], r.count)
  }

  ghost predicate ReaderHonest(r: Reader, removed: seq<Message>) {
    match r
    case RCopy(_, index, m) => index < |removed| && m == removed[index]
    case RWake(result) => (result.Got? || result.Faulted?) && ReadHonest(result, removed)
    case _ => true
  }

  /** A write reports the length of the message it names. */
  ghost predicate WriteHonest(r: Result, appended: seq<Message>) {
    r.Wrote? ==> r.index < |appended| && r.count == |appended[r.index]|
  }

  ghost predicate WriterHonest(w: Writer, appended: seq<Message>) {
    w.WWake? ==> w.index < |appended| && w.data == appended[w.index]
  }

  /** FIFO order and byte accounting. */
  ghost predicate Accounts(s: State) {
    && s.appended == s.removed + s.queue
    && s.queued == Bytes(s.queue)
  }

  /** Every removed message belongs to exactly one read call, running or returned. */
  ghost predicate ReadsOwned(s: State) {
    && (forall t :: 0 <= t < |s.readers| ==> ReaderHonest(s.readers[t], s.removed))
    && (forall k :: 0 <= k < |s.log| ==> ReadHonest(s.log[k], s.removed))
    && EachOnce(ReadTickets(s.readers), ReadReceipts(s.log), |s.removed|)
  }

  /** Every appended message belongs to exactly one write call, running or returned. */
  ghost predicate WritesOwned(s: State) {
    && (forall t :: 0 <= t < |s.writers| ==> WriterHonest(s.writers[t], s.appended))
    && (forall k :: 0 <= k < |s.log| ==> WriteHonest(s.log[k], s.appended))
    && EachOnce(WriteTickets(s.writers), WriteReceipts(s.log), |s.appended|)
  }

  /** Somebody appended and has yet to wake the readers. */
  ghost predicate ReadWakePending(s: State) {
    exists u :: 0 <= u < |s.writers| && s.writers[u].WWake?
  }

  /** Somebody removed a message and has yet to wake the writers. */
  ghost predicate WriteWakePending(s: State) {
    exists u :: 0 <= u < |s.readers| && s.readers[u].OwesWake()
  }

  ghost predicate NoLostWake(s: State) {
    && (forall t :: 0 <= t < |s.readers| && s.readers[t].RAsleep? ==> s.queue == [] || ReadWakePending(s))
    && (forall t :: 0 <= t < |s.writers| && s.writers[t].WAsleep? ==>
          s.queued + |s.writers[t].data| > MAX_BYTES || WriteWakePending(s))
  }

  /** The overshoot bound. */
  ghost predicate Bounded(s: State) {
    |s.writers| >= 1 ==> s.queued + InFlight(s.writers) <= MAX_BYTES + (|s.writers| - 1) * MAX_MSG
  }

  ghost predicate Inv(s: State) {
    SizesOk(s.writers) && Accounts(s) && ReadsOwned(s) && WritesOwned(s) && NoLostWake(s) && Bounded(s)
  }

  // ----- sums

  lemma {:induction false} BytesAppend(q: seq<Message>, m: Message)
    ensures Bytes(q + [m]) == Bytes(q) + |m|
  {
    assert (q + [m])[..|q|] == q;
  }

  lemma {:induction false} BytesTail(q: seq<Message>)
    requires q != []
    ensures Bytes(q) == |q[0]| + Bytes(q[1..])
  {
    if |q| > 1 {
      BytesTail(q[..|q| - 1]);
      assert q[..|q| - 1][1..] == q[1..][..|q| - 2];
    }
  }

  lemma {:induction false} InFlightUpdate(ws: seq<Writer>, t: nat, w: Writer)
    requires t < |ws|
    ensures InFlight(ws[t := w]) == InFlight(ws) - Load(ws[t]) + Load(w)
  {
    var n := |ws| - 1;
    if t == n {
      assert ws[t := w][..n] == ws[..n];
    } else {
      InFlightUpdate(ws[..n], t, w);
      assert ws[t := w][..n] == ws[..n][t := w];
    }
  }

  lemma {:induction false} InFlightSame(a: seq<Writer>, b: seq<Writer>)
    requires |a| == |b| && forall t :: 0 <= t < |a| ==> Load(a[t]) == Load(b[t])
    ensures InFlight(a) == InFlight(b)
  {
    if a != [] {
      InFlightSame(a[..|a| - 1], b[..|b| - 1]);
    }
  }

  lemma {:induction false} InFlightAtMost(ws: seq<Writer>)
    requires SizesOk(ws)
    ensures InFlight(ws) <= |ws| * MAX_MSG
  {
    if ws != [] {
      InFlightAtMost(ws[..|ws| - 1]);
    }
  }

  /** While one writer is not in flight, the others hold at most `MAX_MSG` each. */
  lemma InFlightOthers(ws: seq<Writer>, t: nat)
    requires SizesOk(ws) && t < |ws| && !ws[t].Admitted()
    ensures InFlight(ws) <= (|ws| - 1) * MAX_MSG
  {
    var rest := ws[..t] + ws[t + 1..];
    InFlightAtMost(rest);
    InFlightRemove(ws, t);
  }

  lemma {:induction false} InFlightRemove(ws: seq<Writer>, t: nat)
    requires t < |ws|
    ensures InFlight(ws[..t] + ws[t + 1..]) == InFlight(ws) - Load(ws[t])
  {
    var n := |ws| - 1;
    if t == n {
      assert ws[..t] + ws[t + 1..] == ws[..n];
    } else {
      InFlightRemove(ws[..n], t);
      assert (ws[..t] + ws[t + 1..])[..n - 1] == ws[..n][..t] + ws[..n][t + 1..];
    }
  }

  predicate ByReader(e: Event) {
    e.ReadCall? || e.ReadGoes? || e.ReadSignal? || e.ReadFault?
  }

  // ----- each part of the invariant, step by step

  /** A writer's step changes its own place, and wakes readers at most. */
  lemma WriterEffect(s: State, e: Event, s': State)
    requires Step(s, e, s') && !ByReader(e)
    ensures e.t < |s.writers| && s'.writers == s.writers[e.t := s'.writers[e.t]]
    ensures s'.readers == s.readers || s'.readers == WakeReaders(s.readers)
    ensures s'.queued >= s.queued && |s'.queue| >= |s.queue|
    ensures s'.writers[e.t].WAsleep? ==> s'.queued + |s'.writers[e.t].data| > MAX_BYTES
    ensures s.writers[e.t].WWake? ==> s'.readers == WakeReaders(s.readers)
    ensures s'.queue != s.queue ==> s'.writers[e.t].WWake?
  {}

  /** A reader's step changes its own place, and wakes writers at most. */
  lemma ReaderEffect(s: State, e: Event, s': State)
    requires Step(s, e, s') && ByReader(e)
    ensures e.t < |s.readers| && s'.readers == s.readers[e.t := s'.readers[e.t]]
    ensures s'.writers == s.writers || s'.writers == WakeWriters(s.writers)
    ensures s'.readers[e.t].RAsleep? ==> s'.queue == []
    ensures s'.queue == s.queue || s'.queue == s.queue[1..]
    ensures s.readers[e.t].OwesWake() && !s'.readers[e.t].OwesWake() ==> s'.writers == WakeWriters(s.writers)
    ensures s'.queued != s.queued ==> s'.readers[e.t].OwesWake()
  {}

  lemma SizesStep(s: State, e: Event, s': State)
    requires SizesOk(s.writers) && Step(s, e, s')
    ensures SizesOk(s'.writers)
  {
    if ByReader(e) {
      ReaderEffect(s, e, s');
      hide Step;
    } else {
      WriterEffect(s, e, s');
    }
  }

  lemma AccountsTake(s: State, t: nat, s': State)
    requires Accounts(s) && Step(s, ReadGoes(t), s') && s.readers[t].RTake? && s.queue != []
    ensures Accounts(s')
  {
    BytesTail(s.queue);
    assert s.queue == [s.queue[0]] + s.queue[1..];
  }

  lemma AccountsAppend(s: State, t: nat, s': State)
    requires Accounts(s) && Step(s, WriteGoes(t), s') && s.writers[t].WAppend?
    ensures Accounts(s')
  {
    BytesAppend(s.queue, s.writers[t].data);
  }

  lemma AccountsStep(s: State, e: Event, s': State)
    requires Accounts(s) && Step(s, e, s')
    ensures Accounts(s')
  {
    if e.ReadGoes? && s.readers[e.t].RTake? && s.queue != [] {
      AccountsTake(s, e.t, s');
    } else if e.WriteGoes? && s.writers[e.t].WAppend? {
      AccountsAppend(s, e.t, s');
    } else {
      assert s'.queue == s.queue && s'.queued == s.queued;
    }
  }

  lemma NoLostWakeReader(s: State, e: Event, s': State)
    requires NoLostWake(s) && Step(s, e, s') && ByReader(e)
    ensures NoLostWake(s')
  {
    ReaderEffect(s, e, s');
    hide Step;
    forall u | 0 <= u < |s'.readers| && s'.readers[u].RAsleep?
      ensures s'.queue == [] || ReadWakePending(s')
    {
      if s'.queue != [] {
        assert u != e.t && s.readers[u].RAsleep?;
        var v :| 0 <= v < |s.writers| && s.writers[v].WWake?;
        assert s'.writers[v].WWake?;
      }
    }
    forall u | 0 <= u < |s'.writers| && s'.writers[u].WAsleep?
      ensures s'.queued + |s'.writers[u].data| > MAX_BYTES || WriteWakePending(s')
    {
      assert s'.writers == s.writers;
      if s'.readers[e.t].OwesWake() {
      } else if WriteWakePending(s) {
        var v :| 0 <= v < |s.readers| && s.readers[v].OwesWake();
        assert s'.readers[v].OwesWake();
      }
    }
  }

  lemma WriterKeepsReaderWake(s: State, e: Event, s': State, u: nat)
    requires NoLostWake(s) && Step(s, e, s') && !ByReader(e)
    requires u < |s'.readers| && s'.readers[u].RAsleep?
    ensures s'.queue == [] || ReadWakePending(s')
  {
    WriterEffect(s, e, s');
    hide Step;
    if s'.queue == s.queue && ReadWakePending(s) {
      var v :| 0 <= v < |s.writers| && s.writers[v].WWake?;
      assert v != e.t && s'.writers[v].WWake?;
    }
  }

  lemma WriterKeepsWriterWake(s: State, e: Event, s': State, u: nat)
    requires NoLostWake(s) && Step(s, e, s') && !ByReader(e)
    requires u < |s'.writers| && s'.writers[u].WAsleep?
    ensures s'.queued + |s'.writers[u].data| > MAX_BYTES || WriteWakePending(s')
  {
    WriterEffect(s, e, s');
    hide Step;
    if u != e.t && WriteWakePending(s) {
      var v :| 0 <= v < |s.readers| && s.readers[v].OwesWake();
      assert s'.readers[v].OwesWake();
    }
  }

  lemma NoLostWakeWriter(s: State, e: Event, s': State)
    requires NoLostWake(s) && Step(s, e, s')
    requires !ByReader(e)
    ensures NoLostWake(s')
  {
    forall u | 0 <= u < |s'.readers| && s'.readers[u].RAsleep?
      ensures s'.queue == [] || ReadWakePending(s')
    {
      WriterKeepsReaderWake(s, e, s', u);
    }
    forall u | 0 <= u < |s'.writers| && s'.writers[u].WAsleep?
      ensures s'.queued + |s'.writers[u].data| > MAX_BYTES || WriteWakePending(s')
    {
      WriterKeepsWriterWake(s, e, s', u);
    }
  }

  lemma NoLostWakeStep(s: State, e: Event, s': State)
    requires NoLostWake(s) && Step(s, e, s')
    ensures NoLostWake(s')
  {
    if ByReader(e) {
      NoLostWakeReader(s, e, s');
    } else {
      NoLostWakeWriter(s, e, s');
    }
  }

  lemma ThreadsStay(s: State, e: Event, s': State)
    requires Step(s, e, s')
    ensures |s'.readers| == |s.readers| && |s'.writers| == |s.writers|
  {}

  /** Only passing the check can raise the total, and it does so below the cap. */
  lemma WriterTotal(s: State, e: Event, s': State)
    requires Step(s, e, s') && !ByReader(e)
    ensures |s'.writers| == |s.writers|
    ensures e.WriteGoes? && s.writers[e.t].WCheck? ==>
      s'.queued + InFlight(s'.writers) <= MAX_BYTES + InFlight(s.writers)
      || s'.queued + InFlight(s'.writers) == s.queued + InFlight(s.writers)
    ensures !(e.WriteGoes? && s.writers[e.t].WCheck?) ==>
      s'.queued + InFlight(s'.writers) <= s.queued + InFlight(s.writers)
  {
    WriterEffect(s, e, s');
    InFlightUpdate(s.writers, e.t, s'.writers[e.t]);
  }

  lemma ReaderTotal(s: State, e: Event, s': State)
    requires Step(s, e, s') && ByReader(e)
    ensures |s'.writers| == |s.writers|
    ensures s'.queued + InFlight(s'.writers) <= s.queued + InFlight(s.writers)
  {
    InFlightSame(s.writers, s'.writers);
  }

  lemma BoundedStep(s: State, e: Event, s': State)
    requires SizesOk(s.writers) && Bounded(s) && Step(s, e, s')
    ensures Bounded(s')
  {
    if ByReader(e) {
      ReaderTotal(s, e, s');
    } else {
      WriterTotal(s, e, s');
      if e.WriteGoes? && s.writers[e.t].WCheck? {
        InFlightOthers(s.writers, e.t);
      }
    }
  }

  // ----- ownership of messages

  lemma ReceiptsGrow(log: seq<Result>, r: Result)
    ensures ReadReceipts(log + [r]) == ReadReceipts(log) + [ReadReceipt(r)]
    ensures WriteReceipts(log + [r]) == WriteReceipts(log) + [WriteReceipt(r)]
  {}

  /** A step that moves no read ticket. */
  lemma ReadsFrame(s: State, s': State, returned: seq<Result>)
    requires ReadsOwned(s) && s'.removed == s.removed && ReadTickets(s'.readers) == ReadTickets(s.readers)
    requires forall t :: 0 <= t < |s'.readers| ==> ReaderHonest(s'.readers[t], s.removed)
    requires s'.log == s.log + returned
    requires returned == [] || (|returned| == 1 && ReadReceipt(returned[0]) == NoTicket)
    ensures ReadsOwned(s')
  {
    if returned == [] {
      assert s'.log == s.log;
    } else {
      assert returned == [returned[0]];
      ReceiptsGrow(s.log, returned[0]);
      FileNothing(ReadTickets(s.readers), ReadReceipts(s.log), |s.removed|);
    }
  }

  lemma ReadsTake(s: State, t: nat, s': State)
    requires ReadsOwned(s) && t < |s.readers| && s.readers[t].RTake? && s.queue != []
    requires s' == ReadStep(s, t)
    ensures ReadsOwned(s')
  {
    Issue(ReadTickets(s.readers), ReadReceipts(s.log), |s.removed|, t);
    assert ReadTickets(s'.readers) == ReadTickets(s.readers)[t := Ticket(|s.removed|)];
    forall u | 0 <= u < |s.readers|
      ensures ReaderHonest(s'.readers[u], s'.removed)
    {
      assert u != t ==> ReaderHonest(s.readers[u], s.removed);
    }
  }

  lemma ReadsReturn(s: State, t: nat, s': State)
    requires ReadsOwned(s) && t < |s.readers| && s.readers[t].RWake?
    requires s' == ReadStep(s, t)
    ensures ReadsOwned(s')
  {
    assert ReaderHonest(s.readers[t], s.removed);
    File(ReadTickets(s.readers), ReadReceipts(s.log), |s.removed|, t);
    assert ReadTickets(s'.readers) == ReadTickets(s.readers)[t := NoTicket];
    ReceiptsGrow(s.log, s.readers[t].result);
  }

  lemma ReadsOwnedByReader(s: State, e: Event, s': State)
    requires ReadsOwned(s) && Step(s, e, s') && ByReader(e)
    ensures ReadsOwned(s')
  {
    assert ReaderHonest(s.readers[e.t], s.removed);
    if e.ReadGoes? && s.readers[e.t].RTake? && s.queue != [] {
      ReadsTake(s, e.t, s');
    } else if e.ReadGoes? && s.readers[e.t].RWake? {
      ReadsReturn(s, e.t, s');
    } else {
      ReadsFrame(s, s', s'.log[|s.log|..]);
    }
  }

  lemma ReadsOwnedStep(s: State, e: Event, s': State)
    requires ReadsOwned(s) && Step(s, e, s')
    ensures ReadsOwned(s')
  {
    if ByReader(e) {
      ReadsOwnedByReader(s, e, s');
    } else {
      ReadsFrame(s, s', s'.log[|s.log|..]);
    }
  }

  /** A step that moves no write ticket. */
  lemma WritesFrame(s: State, s': State, returned: seq<Result>)
    requires WritesOwned(s) && s'.appended == s.appended && WriteTickets(s'.writers) == WriteTickets(s.writers)
    requires forall t :: 0 <= t < |s'.writers| ==> WriterHonest(s'.writers[t], s.appended)
    requires s'.log == s.log + returned
    requires returned == [] || (|returned| == 1 && WriteReceipt(returned[0]) == NoTicket)
    ensures WritesOwned(s')
  {
    if returned == [] {
      assert s'.log == s.log;
    } else {
      assert returned == [returned[0]];
      ReceiptsGrow(s.log, returned[0]);
      FileNothing(WriteTickets(s.writers), WriteReceipts(s.log), |s.appended|);
    }
  }

  lemma WritesAppend(s: State, t: nat, s': State)
    requires WritesOwned(s) && t < |s.writers| && s.writers[t].WAppend?
    requires s' == WriteStep(s, t)
    ensures WritesOwned(s')
  {
    Issue(WriteTickets(s.writers), WriteReceipts(s.log), |s.appended|, t);
    assert WriteTickets(s'.writers) == WriteTickets(s.writers)[t := Ticket(|s.appended|)];
    forall u | 0 <= u < |s.writers|
      ensures WriterHonest(s'.writers[u], s'.appended)
    {
      assert u != t ==> WriterHonest(s.writers[u], s.appended);
    }
  }

  lemma WritesReturn(s: State, t: nat, s': State)
    requires WritesOwned(s) && t < |s.writers| && s.writers[t].WWake?
    requires s' == WriteStep(s, t)
    ensures WritesOwned(s')
  {
    assert WriterHonest(s.writers[t], s.appended);
    File(WriteTickets(s.writers), WriteReceipts(s.log), |s.appended|, t);
    assert WriteTickets(s'.writers) == WriteTickets(s.writers)[t := NoTicket];
    ReceiptsGrow(s.log, Wrote(s.writers[t].index, |s.writers[t].data|));
  }

  lemma WritesOwnedByWriter(s: State, e: Event, s': State)
    requires WritesOwned(s) && Step(s, e, s') && !ByReader(e)
    ensures WritesOwned(s')
  {
    if e.WriteGoes? && s.writers[e.t].WAppend? {
      WritesAppend(s, e.t, s');
    } else if e.WriteGoes? && s.writers[e.t].WWake? {
      WritesReturn(s, e.t, s');
    } else {
      WritesFrame(s, s', s'.log[|s.log|..]);
    }
  }

  /** A reader's result is no write receipt: readers hold only what they removed. */
  lemma WritesOwnedByReader(s: State, e: Event, s': State)
    requires WritesOwned(s) && ReadsOwned(s) && Step(s, e, s') && ByReader(e)
    ensures WritesOwned(s')
  {
    assert ReaderHonest(s.readers[e.t], s.removed);
    WritesFrame(s, s', s'.log[|s.log|..]);
  }

  lemma WritesOwnedStep(s: State, e: Event, s': State)
    requires WritesOwned(s) && ReadsOwned(s) && Step(s, e, s')
    ensures WritesOwned(s')
  {
    if ByReader(e) {
      WritesOwnedByReader(s, e, s');
    } else {
      WritesOwnedByWriter(s, e, s');
    }
  }

  // ----- all runs

  ghost predicate Untouched(s: State) {
    && (forall t :: 0 <= t < |s.readers| ==> s.readers[t] == RIdle)
    && (forall t :: 0 <= t < |s.writers| ==> s.writers[t] == WIdle)
    && s.queue == [] && s.queued == 0 && s.removed == [] && s.appended == [] && s.log == []
  }

  lemma UntouchedReads(s: State)
    requires Untouched(s)
    ensures ReadsOwned(s)
  {
    assert forall t :: 0 <= t < |s.readers| ==> ReadTickets(s.readers)[t] == NoTicket;
  }

  lemma UntouchedWrites(s: State)
    requires Untouched(s)
    ensures WritesOwned(s)
  {
    assert forall t :: 0 <= t < |s.writers| ==> WriteTickets(s.writers)[t] == NoTicket;
  }

  lemma UntouchedCounts(s: State)
    requires Untouched(s)
    ensures Accounts(s) && Bounded(s)
  {
    NobodyInFlight(s.writers);
  }

  lemma NobodySleeps(s: State)
    requires Untouched(s)
    ensures SizesOk(s.writers) && NoLostWake(s)
  {}

  lemma UntouchedInv(s: State)
    requires Untouched(s)
    ensures Inv(s)
  {
    hide SizesOk, Accounts, ReadsOwned, WritesOwned, NoLostWake, Bounded;
    UntouchedReads(s);
    UntouchedWrites(s);
    UntouchedCounts(s);
    NobodySleeps(s);
  }

  lemma InitialInv(readers: nat, writers: nat)
    ensures Inv(Initial(readers, writers))
  {
    UntouchedInv(Initial(readers, writers)) by {
      hide Inv;
    }
    hide Inv;
  }

  lemma {:induction false} NobodyInFlight(ws: seq<Writer>)
    requires forall t :: 0 <= t < |ws| ==> !ws[t].Admitted()
    ensures InFlight(ws) == 0
  {
    if ws != [] {
      NobodyInFlight(ws[..|ws| - 1]);
    }
  }

  lemma StepKeepsInv(s: State, e: Event, s': State)
    requires Inv(s) && Step(s, e, s')
    ensures Inv(s')
    ensures |s'.readers| == |s.readers| && |s'.writers| == |s.writers|
  {
    hide SizesOk, Accounts, ReadsOwned, WritesOwned, NoLostWake, Bounded;
    SizesStep(s, e, s');
    AccountsStep(s, e, s');
    ReadsOwnedStep(s, e, s');
    WritesOwnedStep(s, e, s');
    BoundedStep(s, e, s');
    NoLostWakeStep(s, e, s');
    ThreadsStay(s, e, s');
  }

  lemma {:induction false} RunKeepsInv(ss: seq<State>, es: seq<Event>, readers: nat, writers: nat, i: nat)
    requires Run(ss, es, readers, writers) && i < |ss|
    ensures Inv(ss[i]) && |ss[i].readers| == readers && |ss[i].writers| == writers
  {
    if i == 0 {
      InitialInv(readers, writers);
    } else {
      RunKeepsInv(ss, es, readers, writers, i - 1);
      StepKeepsInv(ss[i - 1], es[i - 1], ss[i]);
    }
  }

  lemma ReachableInv(s: State, readers: nat, writers: nat)
    requires Reachable(s, readers, writers)
    ensures Inv(s) && |s.readers| == readers && |s.writers| == writers
  {
    var ss, es :| Run(ss, es, readers, writers) && ss[|es|] == s;
    RunKeepsInv(ss, es, readers, writers, |es|);
  }
}
