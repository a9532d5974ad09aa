/** The message device as a step system: any number of reader and writer threads, one
    atomic step for each critical section, wait, wake-up and copy.

    `wait_event_interruptible` enqueues the thread before it looks at the condition, so
    looking and falling asleep is one step here.  After a signal it looks once more,
    and gives up only if the condition still fails. */
module MessageQueue {
  import opened Octets

  const MAX_BYTES := 64 * 1024
  const MAX_MSG := 4 * 1024

  type Message = seq<Byte>

  /** What a call returned.  `index` numbers the removed or the appended messages;
      `Nothing` is the return value 0 of an empty write. */
  datatype Result =
    | Got(index: nat, count: nat, bytes: Message)
    | Faulted(index: nat)
    | WouldBlock
    | Interrupted
    | Wrote(index: nat, count: nat)
    | Nothing
    | TooLong
    | NoMemory
    | BadAddress

  datatype Reader =
    | RIdle
    | RProbe(count: nat)
    | RWait(count: nat, nonblock: bool)
    | RAsleep(count: nat, nonblock: bool)
    | RTake(count: nat, nonblock: bool)
    | RCopy(count: nat, index: nat, m: Message)
    | RWake(result: Result)
  {
    predicate OwesWake() { RCopy? || RWake? }
  }

  datatype Writer =
    | WIdle
    | WCheck(data: Message, nonblock: bool)
    | WWait(data: Message)
    | WAsleep(data: Message)
    | WAlloc(data: Message)
    | WFill(data: Message)
    | WAppend(data: Message)
    | WWake(data: Message, index: nat)
  {
    /** Passed the capacity check and has neither appended nor aborted. */
    predicate Admitted() { WAlloc? || WFill? || WAppend? }
  }

  /** `removed`, `appended` and `log` record the run; the device keeps none of them. */
  datatype State = State(
    queue: seq<Message>,
    queued: int,
    readers: seq<Reader>,
    writers: seq<Writer>,
    removed: seq<Message>,
    appended: seq<Message>,
    log: seq<Result>)

  datatype Event =
    | ReadCall(t: nat, count: nat, nonblock: bool)
    | ReadGoes(t: nat)
    | ReadSignal(t: nat)
    | ReadFault(t: nat)
    | WriteCall(t: nat, data: Message, nonblock: bool)
    | WriteGoes(t: nat)
    | WriteSignal(t: nat)
    | WriteFault(t: nat)

  function Initial(readers: nat, writers: nat): State {
    State([], 0, seq(readers, _ => RIdle), seq(writers, _ => WIdle), [], [], [])
  }

  function Truncate(m: Message, count: nat): Message {
    if count < |m| then m[..count] else m
  }

  /** `wake_up_interruptible` wakes every sleeper, which then looks again. */
  function WakeReaders(rs: seq<Reader>): (r: seq<Reader>)
    ensures |r| == |rs|
    ensures forall t :: 0 <= t < |rs| ==> r[t] == if rs[t].RAsleep? then RWait(rs[t].count, rs[t].nonblock) else rs[t]
  {
    seq(|rs|, t requires 0 <= t < |rs| => if rs[t].RAsleep? then RWait(rs[t].count, rs[t].nonblock) else rs[t])
  }

  function WakeWriters(ws: seq<Writer>): (r: seq<Writer>)
    ensures |r| == |ws|
    ensures forall t :: 0 <= t < |ws| ==> r[t] == if ws[t].WAsleep? then WWait(ws[t].data) else ws[t]
  {
    seq(|ws|, t requires 0 <= t < |ws| => if ws[t].WAsleep? then WWait(ws[t].data) else ws[t])
  }

  function ReaderTo(s: State, t: nat, r: Reader): State
    requires t < |s.readers|
  {
    s.(readers := s.readers[t := r])
  }

  function WriterTo(s: State, t: nat, w: Writer): State
    requires t < |s.writers|
  {
    s.(writers := s.writers[t := w])
  }

  function ReadReturns(s: State, t: nat, result: Result): State
    requires t < |s.readers|
  {
    ReaderTo(s, t, RIdle).(log := s.log + [result])
  }

  function WriteReturns(s: State, t: nat, result: Result): State
    requires t < |s.writers|
  {
    WriterTo(s, t, WIdle).(log := s.log + [result])
  }

  predicate Enabled(s: State, e: Event) {
    match e
    case ReadCall(t, _, _) => t < |s.readers| && s.readers[t].RIdle?
    case ReadGoes(t) => t < |s.readers| && !s.readers[t].RIdle? && !s.readers[t].RAsleep?
    case ReadSignal(t) => t < |s.readers| && (s.readers[t].RWait? || s.readers[t].RAsleep?)
    case ReadFault(t) => t < |s.readers| && s.readers[t].RCopy?
    case WriteCall(t, _, _) => t < |s.writers| && s.writers[t].WIdle?
    case WriteGoes(t) => t < |s.writers| && !s.writers[t].WIdle? && !s.writers[t].WAsleep?
    case WriteSignal(t) => t < |s.writers| && (s.writers[t].WWait? || s.writers[t].WAsleep?)
    case WriteFault(t) => t < |s.writers| && (s.writers[t].WAlloc? || s.writers[t].WFill?)
  }

  /** One step of `m2m_read`. */
  function ReadStep(s: State, t: nat): State
    requires Enabled(s, ReadGoes(t))
  {
    match s.readers[t]
    case RProbe(count) =>
      if s.queue == [] then ReadReturns(s, t, WouldBlock) else ReaderTo(s, t, RWait(count, true))
    case RWait(count, nonblock) =>
      ReaderTo(s, t, if s.queue == [] then RAsleep(count, nonblock) else RTake(count, nonblock))
    case RTake(count, nonblock) =>
      if s.queue == [] then ReadReturns(s, t, WouldBlock)
      else
        ReaderTo(s, t, RCopy(count, |s.removed|, s.queue[0])).(
          queue := s.queue[1..],
          queued := s.queued - |s.queue[0]|,
          removed := s.removed + [s.queue[0]])
    case RCopy(count, index, m) =>
      ReaderTo(s, t, RWake(Got(index, count, Truncate(m, count))))
    case RWake(result) =>
      ReadReturns(s, t, result).(writers := WakeWriters(s.writers))
    case RIdle => s
    case RAsleep(_, _) => s
  }

  /** One step of `m2m_write`. */
  function WriteStep(s: State, t: nat): State
    requires Enabled(s, WriteGoes(t))
  {
    match s.writers[t]
    case WCheck(data, nonblock) =>
      if s.queued + |data| <= MAX_BYTES then WriterTo(s, t, WAlloc(data))
      else if nonblock then WriteReturns(s, t, WouldBlock)
      else WriterTo(s, t, WWait(data))
    case WWait(data) =>
      WriterTo(s, t, if s.queued + |data| <= MAX_BYTES then WCheck(data, false) else WAsleep(data))
    case WAlloc(data) => WriterTo(s, t, WFill(data))
    case WFill(data) => WriterTo(s, t, WAppend(data))
    case WAppend(data) =>
      WriterTo(s, t, WWake(data, |s.appended|)).(
        queue := s.queue + [data],
        queued := s.queued + |data|,
        appended := s.appended + [data])
    case WWake(data, index) =>
      WriteReturns(s, t, Wrote(index, |data|)).(readers := WakeReaders(s.readers))
    case WIdle => s
    case WAsleep(_) => s
  }

  /** A signal reaches a thread in its wait. */
  function ReadSignalled(s: State, t: nat): State
    requires Enabled(s, ReadSignal(t))
  {
    if s.queue == [] then ReadReturns(s, t, Interrupted)
    else ReaderTo(s, t, RTake(s.readers[t].count, s.readers[t].nonblock))
  }

  function WriteSignalled(s: State, t: nat): State
    requires Enabled(s, WriteSignal(t))
  {
    var data := s.writers[t].data;
    if s.queued + |data| <= MAX_BYTES then WriterTo(s, t, WCheck(data, false))
    else WriteReturns(s, t, Interrupted)
  }

  function WriteCalled(s: State, t: nat, data: Message, nonblock: bool): State
    requires t < |s.writers|
  {
    if data == [] then WriteReturns(s, t, Nothing)
    else if |data| > MAX_MSG then WriteReturns(s, t, TooLong)
    else WriterTo(s, t, WCheck(data, nonblock))
  }

  ghost predicate Step(s: State, e: Event, s': State) {
    && Enabled(s, e)
    && match e
       case ReadCall(t, count, nonblock) =>
         s' == ReaderTo(s, t, if nonblock then RProbe(count) else RWait(count, false))
       case ReadGoes(t) => s' == ReadStep(s, t)
       case ReadSignal(t) => s' == ReadSignalled(s, t)
       case ReadFault(t) => s' == ReaderTo(s, t, RWake(Faulted(s.readers[t].index)))
       case WriteCall(t, data, nonblock) => s' == WriteCalled(s, t, data, nonblock)
       case WriteGoes(t) => s' == WriteStep(s, t)
       case WriteSignal(t) => s' == WriteSignalled(s, t)
       case WriteFault(t) => s' == WriteReturns(s, t, if s.writers[t].WAlloc? then NoMemory else BadAddress)
  }

  ghost predicate Run(ss: seq<State>, es: seq<Event>, readers: nat, writers: nat) {
    && |ss| == |es| + 1
    && ss[0] == Initial(readers, writers)
    && forall i {:trigger es[i]} :: 0 <= i < |es| ==> Step(ss[i], es[i], ss[i + 1])
  }

  ghost predicate Reachable(s: State, readers: nat, writers: nat) {
    exists ss, es :: Run(ss, es, readers, writers) && ss[|es|] == s
  }

  /** `m2m_poll`: readable, writable. */
  function Poll(s: State): (bool, bool) {
    (s.queue != [], s.queued < MAX_BYTES)
  }
}
