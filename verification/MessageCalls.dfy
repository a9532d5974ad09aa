/** What a call returns, told from what was asked for: over every interleaving, and for
    a call that nobody interrupts. */
module MessageCalls {
  import opened MessageQueue
  import opened MessageSafety
  import opened MessageRuns

  datatype Asked = NoCall | ReadOf(count: nat, nonblock: bool) | WriteOf(data: Message, nonblock: bool)

  /** The last read call of thread `t` among the first `n` events. */
  function LastRead(es: seq<Event>, n: nat, t: nat): Asked
    requires n <= |es|
  {
    if n == 0 then NoCall
    else
      match es[n - 1]
      case ReadCall(u, count, nonblock) => if u == t then ReadOf(count, nonblock) else LastRead(es, n - 1, t)
      case _ => LastRead(es, n - 1, t)
  }

  function LastWrite(es: seq<Event>, n: nat, t: nat): Asked
    requires n <= |es|
  {
    if n == 0 then NoCall
    else
      match es[n - 1]
      case WriteCall(u, data, nonblock) => if u == t then WriteOf(data, nonblock) else LastWrite(es, n - 1, t)
      case _ => LastWrite(es, n - 1, t)
  }

  function Least(a: nat, b: nat): nat {
    if a < b then a else b
  }

  // ----- a busy thread serves the call it made last

  predicate ServesRead(r: Reader, a: Asked) {
    match r
    case RIdle => true
    case RProbe(count) => a == ReadOf(count, true)
    case RWait(count, nonblock) => a == ReadOf(count, nonblock)
    case RAsleep(count, nonblock) => a == ReadOf(count, nonblock)
    case RTake(count, nonblock) => a == ReadOf(count, nonblock)
    case RCopy(count, _, _) => a.ReadOf? && a.count == count
    case RWake(result) => a.ReadOf? && (result.Got? ==> result.count == a.count)
  }

  /** Only a blocking call waits. */
  predicate ServesWrite(w: Writer, a: Asked) {
    match w
    case WIdle => true
    case WCheck(data, nonblock) => a == WriteOf(data, nonblock)
    case WWait(data) => a == WriteOf(data, false)
    case WAsleep(data) => a == WriteOf(data, false)
    case WAlloc(data) => a.WriteOf? && a.data == data
    case WFill(data) => a.WriteOf? && a.data == data
    case WAppend(data) => a.WriteOf? && a.data == data
    case WWake(data, _) => a.WriteOf? && a.data == data
  }

  ghost predicate Serving(s: State, es: seq<Event>, n: nat)
    requires n <= |es|
  {
    && (forall t :: 0 <= t < |s.readers| ==> ServesRead(s.readers[t], LastRead(es, n, t)))
    && (forall t :: 0 <= t < |s.writers| ==> ServesWrite(s.writers[t], LastWrite(es, n, t)))
  }

  lemma ReaderStepServes(s: State, es: seq<Event>, n: nat, s': State)
    requires n < |es| && Serving(s, es, n) && Step(s, es[n], s') && ByReader(es[n])
    ensures Serving(s', es, n + 1)
  {
    ReaderEffect(s, es[n], s');
    assert ServesRead(s.readers[es[n].t], LastRead(es, n, es[n].t));
    assert ServesRead(s'.readers[es[n].t], LastRead(es, n + 1, es[n].t));
    hide Step;
    forall t | 0 <= t < |s'.writers|
      ensures ServesWrite(s'.writers[t], LastWrite(es, n + 1, t))
    {
      assert ServesWrite(s.writers[t], LastWrite(es, n, t));
    }
  }

  lemma WriterStepServes(s: State, es: seq<Event>, n: nat, s': State)
    requires n < |es| && Serving(s, es, n) && Step(s, es[n], s') && !ByReader(es[n])
    ensures Serving(s', es, n + 1)
  {
    WriterEffect(s, es[n], s');
    assert ServesWrite(s.writers[es[n].t], LastWrite(es, n, es[n].t));
    assert ServesWrite(s'.writers[es[n].t], LastWrite(es, n + 1, es[n].t));
    hide Step;
    forall t | 0 <= t < |s'.readers|
      ensures ServesRead(s'.readers[t], LastRead(es, n + 1, t))
    {
      assert ServesRead(s.readers[t], LastRead(es, n, t));
    }
  }

  lemma NobodyServes(readers: nat, writers: nat, es: seq<Event>)
    ensures Serving(Initial(readers, writers), es, 0)
  {}

  lemma {:induction false} RunServes(ss: seq<State>, es: seq<Event>, readers: nat, writers: nat, n: nat)
    requires Run(ss, es, readers, writers) && n <= |es|
    ensures Serving(ss[n], es, n)
  {
    assert ss[0] == Initial(readers, writers) && |ss| == |es| + 1;
    assert n > 0 ==> Step(ss[n - 1], es[n - 1], ss[n]);
    hide *;
    if n == 0 {
      NobodyServes(readers, writers, es);
    } else {
      RunServes(ss, es, readers, writers, n - 1);
      if ByReader(es[n - 1]) {
        ReaderStepServes(ss[n - 1], es, n - 1, ss[n]);
      } else {
        WriterStepServes(ss[n - 1], es, n - 1, ss[n]);
      }
    }
  }

  // ----- what a call returns

  /** The result of a read call that asked for `count` bytes, returned in state `s` at
      event `e`. */
  predicate ReadResult(r: Result, s: State, e: Event, count: nat) {
    match r
    case Got(index, asked, bytes) =>
      && index < |s.removed| && asked == count
      && |bytes| == Least(count, |s.removed[index]|)
      && bytes == s.removed[index][..|bytes|]
    case Faulted(index) => index < |s.removed|
    case WouldBlock => s.queue == []
    case Interrupted => s.queue == [] && e.ReadSignal?
    case _ => false
  }

  predicate WriteResult(r: Result, s: State, e: Event, data: Message, nonblock: bool) {
    match r
    case Wrote(index, count) => index < |s.appended| && s.appended[index] == data && count == |data|
    case Nothing => data == []
    case TooLong => |data| > 4096
    case WouldBlock => nonblock && s.queued + |data| > 65536
    case Interrupted => !nonblock && s.queued + |data| > 65536 && e.WriteSignal?
    case NoMemory => e.WriteFault?
    case BadAddress => e.WriteFault?
    case _ => false
  }

  lemma ReadReturning(s: State, e: Event, s': State, a: Asked)
    requires Step(s, e, s') && ByReader(e) && s'.log != s.log
    requires ReaderHonest(s.readers[e.t], s.removed) && ServesRead(s.readers[e.t], a)
    requires var ticket := ReadTicket(s.readers[e.t]); ticket.Ticket? ==> ticket.number < |s.removed|
    ensures s'.readers[e.t].RIdle? && a.ReadOf?
    ensures |s'.log| == |s.log| + 1 && s'.log[..|s.log|] == s.log
    ensures ReadResult(s'.log[|s.log|], s, e, a.count)
  {}

  lemma WriteReturning(s: State, e: Event, s': State, a: Asked)
    requires Step(s, e, s') && !ByReader(e) && s'.log != s.log
    requires WriterHonest(s.writers[e.t], s.appended) && ServesWrite(s.writers[e.t], a)
    requires e.WriteCall? ==> s.writers[e.t].WIdle?
    ensures s'.writers[e.t].WIdle?
    ensures |s'.log| == |s.log| + 1 && s'.log[..|s.log|] == s.log
    ensures !e.WriteCall? ==> a.WriteOf? && WriteResult(s'.log[|s.log|], s, e, a.data, a.nonblock)
    ensures e.WriteCall? ==> WriteResult(s'.log[|s.log|], s, e, e.data, e.nonblock)
  {}

  /** Over every interleaving: when a read returns, its result follows from the count
      its caller asked for, the message it removed, and the list at that moment. */
  lemma ReadOutcome(ss: seq<State>, es: seq<Event>, readers: nat, writers: nat, n: nat)
    requires Run(ss, es, readers, writers) && n < |es| && ByReader(es[n]) && ss[n + 1].log != ss[n].log
    ensures var a := LastRead(es, n + 1, es[n].t);
      && a.ReadOf? && |ss[n + 1].log| == |ss[n].log| + 1
      && ReadResult(ss[n + 1].log[|ss[n].log|], ss[n], es[n], a.count)
  {
    RunServes(ss, es, readers, writers, n);
    RunKeepsInv(ss, es, readers, writers, n);
    assert Step(ss[n], es[n], ss[n + 1]);
    assert ServesRead(ss[n].readers[es[n].t], LastRead(es, n, es[n].t));
    assert ReaderHonest(ss[n].readers[es[n].t], ss[n].removed);
    var ticket := ReadTickets(ss[n].readers)[es[n].t];
    assert ticket.Ticket? ==> ticket.number < |ss[n].removed|;
    ReadReturning(ss[n], es[n], ss[n + 1], LastRead(es, n, es[n].t));
    assert !es[n].ReadCall?;
  }

  /** The same for writes: -EAGAIN only for a non-blocking call whose message does not
      fit, an interruption only of a blocking one. */
  lemma WriteOutcome(ss: seq<State>, es: seq<Event>, readers: nat, writers: nat, n: nat)
    requires Run(ss, es, readers, writers) && n < |es| && !ByReader(es[n]) && ss[n + 1].log != ss[n].log
    ensures var a := LastWrite(es, n + 1, es[n].t);
      && a.WriteOf? && |ss[n + 1].log| == |ss[n].log| + 1
      && WriteResult(ss[n + 1].log[|ss[n].log|], ss[n], es[n], a.data, a.nonblock)
  {
    RunServes(ss, es, readers, writers, n);
    RunKeepsInv(ss, es, readers, writers, n);
    assert Step(ss[n], es[n], ss[n + 1]);
    assert ServesWrite(ss[n].writers[es[n].t], LastWrite(es, n, es[n].t));
    assert WriterHonest(ss[n].writers[es[n].t], ss[n].appended);
    WriteReturning(ss[n], es[n], ss[n + 1], LastWrite(es, n, es[n].t));
  }

  lemma LogStep(s: State, e: Event, s': State)
    requires Step(s, e, s')
    ensures s'.log == s.log || (|s'.log| == |s.log| + 1 && s'.log[..|s.log|] == s.log)
  {}

  /** The event at which entry `k` of the log was returned. */
  lemma {:induction false} LoggedAt(ss: seq<State>, es: seq<Event>, readers: nat, writers: nat, m: nat, k: nat)
    returns (n: nat)
    requires Run(ss, es, readers, writers) && m <= |es| && k < |ss[m].log|
    ensures n < m && |ss[n].log| == k && |ss[n + 1].log| == k + 1 && ss[n + 1].log[k] == ss[m].log[k]
  {
    assert m > 0 ==> Step(ss[m - 1], es[m - 1], ss[m]);
    assert |ss[0].log| == 0;
    LogStep(ss[m - 1], es[m - 1], ss[m]);
    hide Step;
    if k < |ss[m - 1].log| {
      n := LoggedAt(ss, es, readers, writers, m - 1, k);
      assert ss[m].log[k] == ss[m].log[..|ss[m - 1].log|][k];
    } else {
      n := m - 1;
    }
  }

  /** So every result in the log is the right one for the call that got it. */
  lemma EveryResult(ss: seq<State>, es: seq<Event>, readers: nat, writers: nat, k: nat) returns (n: nat)
    requires Run(ss, es, readers, writers) && k < |ss[|es|].log|
    ensures n < |es|
    ensures var r, a := ss[|es|].log[k], if ByReader(es[n]) then LastRead(es, n + 1, es[n].t) else LastWrite(es, n + 1, es[n].t);
      if ByReader(es[n]) then a.ReadOf? && ReadResult(r, ss[n], es[n], a.count)
      else a.WriteOf? && WriteResult(r, ss[n], es[n], a.data, a.nonblock)
  {
    n := LoggedAt(ss, es, readers, writers, |es|, k);
    hide Run, ReadResult, WriteResult, LastRead, LastWrite;
    if ByReader(es[n]) {
      ReadOutcome(ss, es, readers, writers, n);
    } else {
      WriteOutcome(ss, es, readers, writers, n);
    }
  }

  /** A non-blocking write is never in the wait. */
  lemma NonblockingWriteNeverWaits(ss: seq<State>, es: seq<Event>, readers: nat, writers: nat, n: nat, t: nat)
    requires Run(ss, es, readers, writers) && n <= |es| && t < |ss[n].writers|
    requires ss[n].writers[t].WWait? || ss[n].writers[t].WAsleep?
    ensures LastWrite(es, n, t) == WriteOf(ss[n].writers[t].data, false)
  {
    RunServes(ss, es, readers, writers, n);
    assert ServesWrite(ss[n].writers[t], LastWrite(es, n, t));
  }

  /** A writer that looks at the room is admitted iff its message fits; otherwise a
      non-blocking call returns -EAGAIN and a blocking one goes to the wait. */
  lemma LookOutcome(ss: seq<State>, es: seq<Event>, readers: nat, writers: nat, n: nat, t: nat)
    requires Run(ss, es, readers, writers) && n < |es| && es[n] == WriteGoes(t)
    requires t < |ss[n].writers| && ss[n].writers[t].WCheck?
    ensures var a := LastWrite(es, n, t);
      && a.WriteOf? && t < |ss[n + 1].writers|
      && (ss[n + 1].writers[t].Admitted() <==> ss[n].queued + |a.data| <= 65536)
      && (ss[n + 1].log == ss[n].log + [WouldBlock] <==> a.nonblock && ss[n].queued + |a.data| > 65536)
      && (ss[n + 1].writers[t].WWait? <==> !a.nonblock && ss[n].queued + |a.data| > 65536)
  {
    RunServes(ss, es, readers, writers, n);
    assert ServesWrite(ss[n].writers[t], LastWrite(es, n, t));
    assert Step(ss[n], es[n], ss[n + 1]);
  }

  /** Whatever else happens, a signal takes a thread out of its wait. */
  lemma SignalEndsWait(s: State, e: Event, s': State)
    requires Step(s, e, s')
    ensures e.ReadSignal? ==> if s.queue == [] then s'.log == s.log + [Interrupted] else s'.readers[e.t].RTake?
    ensures e.WriteSignal? ==>
      if s.queued + |s.writers[e.t].data| > 65536 then s'.log == s.log + [Interrupted] else s'.writers[e.t].WCheck?
    ensures e.WriteFault? ==>
      s'.log == s.log + [if s.writers[e.t].WAlloc? then NoMemory else BadAddress]
  {}

  // ----- calls that nobody interrupts

  ghost predicate Path(ss: seq<State>, es: seq<Event>) {
    |ss| == |es| + 1 && forall i {:trigger es[i]} :: 0 <= i < |es| ==> Step(ss[i], es[i], ss[i + 1])
  }

  /** The events lead from one state to the other. */
  ghost predicate Leads(s: State, es: seq<Event>, s': State) {
    exists ss :: Path(ss, es) && ss[0] == s && ss[|es|] == s'
  }

  lemma LeadsOn(s: State, es: seq<Event>, m: State, e: Event, s': State)
    requires Leads(s, es, m) && Step(m, e, s')
    ensures Leads(s, es + [e], s')
  {
    hide Step;
    var ss :| Path(ss, es) && ss[0] == s && ss[|es|] == m;
    assert Path(ss + [s'], es + [e]);
  }

  /** The thread of the first event goes on alone. */
  ghost predicate ReadsOn(s: State, c: Event, es: seq<Event>, s': State)
    requires c.ReadCall?
  {
    Leads(s, es, s') && es != [] && es[0] == c && forall i :: 1 <= i < |es| ==> es[i] == ReadGoes(c.t)
  }

  ghost predicate WritesOn(s: State, c: Event, es: seq<Event>, s': State)
    requires c.WriteCall?
  {
    Leads(s, es, s') && es != [] && es[0] == c && forall i :: 1 <= i < |es| ==> es[i] == WriteGoes(c.t)
  }

  lemma Called(s: State, e: Event, s': State)
    requires Step(s, e, s')
    ensures e.ReadCall? ==> ReadsOn(s, e, [e], s')
    ensures e.WriteCall? ==> WritesOn(s, e, [e], s')
  {
    assert Path([s], []) && Leads(s, [], s);
    LeadsOn(s, [], s, e, s');
    assert [] + [e] == [e];
  }

  lemma ReadGoesOn(s: State, c: Event, es: seq<Event>, m: State, s': State) returns (es': seq<Event>)
    requires c.ReadCall? && ReadsOn(s, c, es, m) && Step(m, ReadGoes(c.t), s')
    ensures ReadsOn(s, c, es', s')
  {
    es' := es + [ReadGoes(c.t)];
    LeadsOn(s, es, m, ReadGoes(c.t), s');
  }

  lemma WriteGoesOn(s: State, c: Event, es: seq<Event>, m: State, s': State) returns (es': seq<Event>)
    requires c.WriteCall? && WritesOn(s, c, es, m) && Step(m, WriteGoes(c.t), s')
    ensures WritesOn(s, c, es', s')
  {
    es' := es + [WriteGoes(c.t)];
    LeadsOn(s, es, m, WriteGoes(c.t), s');
  }

  lemma SameReader(s: State, t: nat, r: Reader, r': Reader)
    requires t < |s.readers|
    ensures ReaderTo(ReaderTo(s, t, r), t, r') == ReaderTo(s, t, r')
    ensures s.readers[t] == r' ==> ReaderTo(ReaderTo(s, t, r), t, r') == s
  {
    assert s.readers[t := r][t := r'] == s.readers[t := r'];
    assert s.readers[t := s.readers[t]] == s.readers;
  }

  lemma SameWriter(s: State, t: nat, w: Writer, w': Writer)
    requires t < |s.writers|
    ensures WriterTo(WriterTo(s, t, w), t, w') == WriterTo(s, t, w')
    ensures s.writers[t] == w' ==> WriterTo(WriterTo(s, t, w), t, w') == s
  {
    assert s.writers[t := w][t := w'] == s.writers[t := w'];
    assert s.writers[t := s.writers[t]] == s.writers;
  }

  /** What one read call alone leaves.  With something in the list it removes the head,
      returns its first bytes, as many as asked for, and lets every sleeping writer look
      again; with nothing there a non-blocking call returns at once and a blocking one
      sleeps. */
  ghost function ReadLeaves(s: State, t: nat, count: nat, nonblock: bool): State
    requires t < |s.readers|
  {
    if s.queue == [] then
      if nonblock then s.(log := s.log + [WouldBlock]) else s.(readers := s.readers[t := RAsleep(count, false)])
    else
      var m := s.queue[0];
      s.(queue := s.queue[1..],
         queued := s.queued - |m|,
         removed := s.removed + [m],
         writers := WakeWriters(s.writers),
         log := s.log + [Got(|s.removed|, count, m[..Least(count, |m|)])])
  }

  lemma FindsMessage(s: State, t: nat, count: nat, nonblock: bool, c: Event, es: seq<Event>) returns (es': seq<Event>)
    requires t < |s.readers| && s.readers[t].RIdle? && s.queue != []
    requires c.ReadCall? && c.t == t && ReadsOn(s, c, es, ReaderTo(s, t, RWait(count, nonblock)))
    ensures ReadsOn(s, c, es', ReadLeaves(s, t, count, nonblock))
  {
    var m := s.queue[0];
    var taken := s.(queue := s.queue[1..], queued := s.queued - |m|, removed := s.removed + [m]);
    var bytes := m[..Least(count, |m|)];
    assert bytes == Truncate(m, count);
    var a := ReaderTo(s, t, RWait(count, nonblock));
    SameReader(s, t, a.readers[t], RTake(count, nonblock));
    var b := ReaderTo(s, t, RTake(count, nonblock));
    es' := ReadGoesOn(s, c, es, a, b);
    var d := ReaderTo(taken, t, RCopy(count, |s.removed|, m));
    SameReader(s, t, b.readers[t], d.readers[t]);
    es' := ReadGoesOn(s, c, es', b, d);
    var f := ReaderTo(taken, t, RWake(Got(|s.removed|, count, bytes)));
    SameReader(taken, t, d.readers[t], f.readers[t]);
    es' := ReadGoesOn(s, c, es', d, f);
    SameReader(taken, t, f.readers[t], RIdle);
    es' := ReadGoesOn(s, c, es', f, ReadLeaves(s, t, count, nonblock));
  }

  /** One read call alone. */
  lemma ReadAlone(s: State, t: nat, count: nat, nonblock: bool) returns (es: seq<Event>)
    requires t < |s.readers| && s.readers[t].RIdle?
    ensures ReadsOn(s, ReadCall(t, count, nonblock), es, ReadLeaves(s, t, count, nonblock))
  {
    var c := ReadCall(t, count, nonblock);
    var a := ReaderTo(s, t, if nonblock then RProbe(count) else RWait(count, false));
    var b := ReaderTo(s, t, RWait(count, nonblock));
    es := [c];
    Called(s, c, a);
    if nonblock && s.queue == [] {
      SameReader(s, t, a.readers[t], RIdle);
      es := ReadGoesOn(s, c, es, a, ReadLeaves(s, t, count, nonblock));
    } else {
      if nonblock {
        SameReader(s, t, a.readers[t], b.readers[t]);
        es := ReadGoesOn(s, c, es, a, b);
      }
      if s.queue == [] {
        SameReader(s, t, a.readers[t], RAsleep(count, false));
        es := ReadGoesOn(s, c, es, a, ReadLeaves(s, t, count, nonblock));
      } else {
        es := FindsMessage(s, t, count, nonblock, c, es);
      }
    }
  }

  /** What one write call alone leaves. */
  ghost function WriteLeaves(s: State, t: nat, data: Message, nonblock: bool): State
    requires t < |s.writers|
  {
    if data == [] then s.(log := s.log + [Nothing])
    else if |data| > 4096 then s.(log := s.log + [TooLong])
    else if s.queued + |data| > 65536 then
      if nonblock then s.(log := s.log + [WouldBlock]) else s.(writers := s.writers[t := WAsleep(data)])
    else
      s.(queue := s.queue + [data],
         queued := s.queued + |data|,
         appended := s.appended + [data],
         readers := WakeReaders(s.readers),
         log := s.log + [Wrote(|s.appended|, |data|)])
  }

  lemma FindsRoom(s: State, t: nat, data: Message, nonblock: bool, c: Event, es: seq<Event>) returns (es': seq<Event>)
    requires t < |s.writers| && s.writers[t].WIdle?
    requires 1 <= |data| <= 4096 && s.queued + |data| <= 65536
    requires c.WriteCall? && c.t == t && WritesOn(s, c, es, WriterTo(s, t, WCheck(data, nonblock)))
    ensures WritesOn(s, c, es', WriteLeaves(s, t, data, nonblock))
  {
    var a := WriterTo(s, t, WCheck(data, nonblock));
    var b := WriterTo(s, t, WAlloc(data));
    SameWriter(s, t, a.writers[t], b.writers[t]);
    es' := WriteGoesOn(s, c, es, a, b);
    var d := WriterTo(s, t, WFill(data));
    SameWriter(s, t, b.writers[t], d.writers[t]);
    es' := WriteGoesOn(s, c, es', b, d);
    var f := WriterTo(s, t, WAppend(data));
    SameWriter(s, t, d.writers[t], f.writers[t]);
    es' := WriteGoesOn(s, c, es', d, f);
    var put := s.(queue := s.queue + [data], queued := s.queued + |data|, appended := s.appended + [data]);
    var g := WriterTo(put, t, WWake(data, |s.appended|));
    SameWriter(s, t, f.writers[t], g.writers[t]);
    es' := WriteGoesOn(s, c, es', f, g);
    SameWriter(put, t, g.writers[t], WIdle);
    es' := WriteGoesOn(s, c, es', g, WriteLeaves(s, t, data, nonblock));
  }

  /** One write call alone. */
  lemma WriteAlone(s: State, t: nat, data: Message, nonblock: bool) returns (es: seq<Event>)
    requires t < |s.writers| && s.writers[t].WIdle?
    ensures WritesOn(s, WriteCall(t, data, nonblock), es, WriteLeaves(s, t, data, nonblock))
  {
    var c := WriteCall(t, data, nonblock);
    es := [c];
    SameWriter(s, t, WIdle, WIdle);
    if data == [] || |data| > 4096 {
      Called(s, c, WriteLeaves(s, t, data, nonblock));
    } else {
      var a := WriterTo(s, t, WCheck(data, nonblock));
      Called(s, c, a);
      if s.queued + |data| <= 65536 {
        es := FindsRoom(s, t, data, nonblock, c, es);
      } else if nonblock {
        SameWriter(s, t, a.writers[t], WIdle);
        es := WriteGoesOn(s, c, es, a, WriteLeaves(s, t, data, nonblock));
      } else {
        var b := WriterTo(s, t, WWait(data));
        SameWriter(s, t, a.writers[t], b.writers[t]);
        es := WriteGoesOn(s, c, es, a, b);
        SameWriter(s, t, b.writers[t], WAsleep(data));
        es := WriteGoesOn(s, c, es, b, WriteLeaves(s, t, data, nonblock));
      }
    }
  }

  // ----- what the poll mask means

  /** Readable: a probe would not return -EAGAIN.  Writable: a message of one byte would
      be admitted. */
  lemma PollMeans(s: State, t: nat, s': State)
    ensures t < |s.readers| && s.readers[t].RProbe? && Step(s, ReadGoes(t), s') ==>
      (Poll(s).0 <==> s'.log != s.log + [WouldBlock])
    ensures t < |s.writers| && s.writers[t].WCheck? && |s.writers[t].data| == 1 && Step(s, WriteGoes(t), s') ==>
      (Poll(s).1 <==> s'.writers[t].Admitted())
  {}

  /** After loading the device is writable and not readable; with one message in the
      list it is readable. */
  lemma PollOfFirstMessage(readers: nat, writers: nat) returns (s: State)
    requires writers >= 1
    ensures Poll(Initial(readers, writers)) == (false, true)
    ensures Reachable(s, readers, writers) && |s.queue| == 1 && Poll(s) == (true, true)
  {
    ReachInitial(readers, writers);
    s := WriteWhole(Initial(readers, writers), 0, [0], readers, writers);
  }

  /** A full device is readable and not writable. */
  lemma PollOfFullDevice(readers: nat, writers: nat) returns (s: State)
    requires writers >= 1
    ensures Reachable(s, readers, writers) && s.queued == 65536 && Poll(s) == (true, false)
  {
    s := Fill(16, readers, writers);
    ReachableInv(s, readers, writers);
  }
}
