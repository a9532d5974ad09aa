/** The device as an object.  Its fields are those of `struct mydev`; what the threads
    are doing and what happened so far is ghost state.  Each method is one atomic step
    of a call, made by thread `t`. */
module MessageDevice {
  import opened MessageQueue
  import opened MessageSafety

  class Device {
    var msgList: seq<Message>
    var queuedBytes: int
    ghost var readers: seq<Reader>
    ghost var writers: seq<Writer>
    ghost var removed: seq<Message>
    ghost var appended: seq<Message>
    ghost var log: seq<Result>

    ghost function View(): State
      reads this
    {
      State(msgList, queuedBytes, readers, writers, removed, appended, log)
    }

    ghost predicate Valid()
      reads this
    {
      Inv(View())
    }

    constructor (ghost readerThreads: nat, ghost writerThreads: nat)
      ensures Valid() && View() == Initial(readerThreads, writerThreads)
    {
      msgList, queuedBytes := [], 0;
      readers, writers := seq(readerThreads, _ => RIdle), seq(writerThreads, _ => WIdle);
      removed, appended, log := [], [], [];
      new;
      InitialInv(readerThreads, writerThreads);
    }

    /** Moves the ghost state along once the fields have changed. */
    ghost method Record(s: State, e: Event, s': State)
      requires Inv(s) && Step(s, e, s') && s'.queue == msgList && s'.queued == queuedBytes
      modifies `readers, `writers, `removed, `appended, `log
      ensures Valid() && View() == s' && Step(s, e, View())
    {
      StepKeepsInv(s, e, s');
      readers, writers := s'.readers, s'.writers;
      removed, appended, log := s'.removed, s'.appended, s'.log;
    }

    // ----- m2m_read

    method BeginRead(ghost t: nat, ghost count: nat, nonblock: bool) returns (probes: bool)
      requires Valid() && Enabled(View(), ReadCall(t, count, nonblock))
      modifies this
      ensures Valid() && Step(old(View()), ReadCall(t, count, nonblock), View())
      ensures probes <==> readers[t].RProbe?
    {
      probes := nonblock;
      Record(View(), ReadCall(t, count, nonblock),
             ReaderTo(View(), t, if nonblock then RProbe(count) else RWait(count, false)));
    }

    method Probe(ghost t: nat) returns (wouldBlock: bool)
      requires Valid() && t < |readers| && readers[t].RProbe?
      modifies this
      ensures Valid() && Step(old(View()), ReadGoes(t), View())
      ensures wouldBlock <==> readers[t].RIdle?
    {
      wouldBlock := msgList == [];
      Record(View(), ReadGoes(t), ReadStep(View(), t));
    }

    method LookForMessage(ghost t: nat) returns (sleeps: bool)
      requires Valid() && t < |readers| && readers[t].RWait?
      modifies this
      ensures Valid() && Step(old(View()), ReadGoes(t), View())
      ensures sleeps <==> readers[t].RAsleep?
    {
      sleeps := msgList == [];
      Record(View(), ReadGoes(t), ReadStep(View(), t));
    }

    /** A signal in the wait: the condition is looked at once more. */
    method SignalRead(ghost t: nat) returns (interrupted: bool)
      requires Valid() && Enabled(View(), ReadSignal(t))
      modifies this
      ensures Valid() && Step(old(View()), ReadSignal(t), View())
      ensures interrupted <==> readers[t].RIdle?
    {
      interrupted := msgList == [];
      Record(View(), ReadSignal(t), ReadSignalled(View(), t));
    }

    method TakeMessage(ghost t: nat) returns (found: bool, m: Message)
      requires Valid() && t < |readers| && readers[t].RTake?
      modifies this
      ensures Valid() && Step(old(View()), ReadGoes(t), View())
      ensures found <==> readers[t].RCopy?
      ensures found ==> m == readers[t].m
    {
      ghost var s := View();
      found, m := msgList != [], [];
      if found {
        m := msgList[0];
        msgList := msgList[1..];
        queuedBytes := queuedBytes - |m|;
      }
      Record(s, ReadGoes(t), ReadStep(s, t));
    }

    method CopyToUser(ghost t: nat, m: Message, count: nat) returns (buf: Message)
      requires Valid() && t < |readers| && readers[t].RCopy? && readers[t].m == m && readers[t].count == count
      modifies this
      ensures Valid() && Step(old(View()), ReadGoes(t), View())
      ensures |buf| == (if count < |m| then count else |m|) && buf == m[..|buf|]
      ensures readers[t].RWake? && readers[t].result.Got?
      ensures readers[t].result.count == count && readers[t].result.bytes == buf
    {
      var toCopy := if count < |m| then count else |m|;
      buf := m[..toCopy];
      Record(View(), ReadGoes(t), ReadStep(View(), t));
    }

    ghost method FailCopyToUser(t: nat)
      requires Valid() && Enabled(View(), ReadFault(t))
      modifies this
      ensures Valid() && Step(old(View()), ReadFault(t), View())
      ensures msgList == old(msgList) && queuedBytes == old(queuedBytes)
    {
      Record(View(), ReadFault(t), ReaderTo(View(), t, RWake(Faulted(readers[t].index))));
    }

    /** The wake-up at the end of a read. */
    ghost method WakeWriteQueue(t: nat)
      requires Valid() && t < |readers| && readers[t].RWake?
      modifies this
      ensures Valid() && Step(old(View()), ReadGoes(t), View())
      ensures msgList == old(msgList) && queuedBytes == old(queuedBytes)
    {
      Record(View(), ReadGoes(t), ReadStep(View(), t));
    }

    // ----- m2m_write

    method BeginWrite(ghost t: nat, data: Message, ghost nonblock: bool) returns (checks: bool)
      requires Valid() && Enabled(View(), WriteCall(t, data, nonblock))
      modifies this
      ensures Valid() && Step(old(View()), WriteCall(t, data, nonblock), View())
      ensures |writers| == old(|writers|) && (checks <==> writers[t].WCheck?)
    {
      checks := 0 < |data| <= MAX_MSG;
      Record(View(), WriteCall(t, data, nonblock), WriteCalled(View(), t, data, nonblock));
    }

    method CheckRoom(ghost t: nat, count: nat, nonblock: bool) returns (admitted: bool, wouldBlock: bool)
      requires Valid() && t < |writers| && writers[t].WCheck?
      requires |writers[t].data| == count && writers[t].nonblock == nonblock
      modifies this
      ensures Valid() && Step(old(View()), WriteGoes(t), View())
      ensures admitted <==> writers[t].WAlloc?
      ensures wouldBlock <==> writers[t].WIdle?
      ensures wouldBlock <==> !admitted && nonblock
    {
      admitted := queuedBytes + count <= MAX_BYTES;
      wouldBlock := !admitted && nonblock;
      Record(View(), WriteGoes(t), WriteStep(View(), t));
    }

    method LookForRoom(ghost t: nat, count: nat) returns (sleeps: bool)
      requires Valid() && t < |writers| && writers[t].WWait? && |writers[t].data| == count
      modifies this
      ensures Valid() && Step(old(View()), WriteGoes(t), View())
      ensures sleeps <==> writers[t].WAsleep?
    {
      sleeps := queuedBytes + count > MAX_BYTES;
      Record(View(), WriteGoes(t), WriteStep(View(), t));
    }

    method SignalWrite(ghost t: nat, count: nat) returns (interrupted: bool)
      requires Valid() && Enabled(View(), WriteSignal(t)) && |writers[t].data| == count
      modifies this
      ensures Valid() && Step(old(View()), WriteSignal(t), View())
      ensures interrupted <==> writers[t].WIdle?
    {
      interrupted := queuedBytes + count > MAX_BYTES;
      Record(View(), WriteSignal(t), WriteSignalled(View(), t));
    }

    /** Allocating and filling the message touches no shared state. */
    ghost method PrepareMessage(t: nat)
      requires Valid() && t < |writers| && (writers[t].WAlloc? || writers[t].WFill?)
      modifies this
      ensures Valid() && Step(old(View()), WriteGoes(t), View())
      ensures msgList == old(msgList) && queuedBytes == old(queuedBytes)
    {
      Record(View(), WriteGoes(t), WriteStep(View(), t));
    }

    /** Either step can fail, which ends the call. */
    ghost method AbortWrite(t: nat)
      requires Valid() && Enabled(View(), WriteFault(t))
      modifies this
      ensures Valid() && Step(old(View()), WriteFault(t), View())
      ensures msgList == old(msgList) && queuedBytes == old(queuedBytes)
    {
      Record(View(), WriteFault(t),
             WriteReturns(View(), t, if writers[t].WAlloc? then NoMemory else BadAddress));
    }

    method AppendMessage(ghost t: nat, m: Message)
      requires Valid() && t < |writers| && writers[t] == WAppend(m)
      modifies this
      ensures Valid() && Step(old(View()), WriteGoes(t), View())
    {
      ghost var s := View();
      msgList := msgList + [m];
      queuedBytes := queuedBytes + |m|;
      Record(s, WriteGoes(t), WriteStep(s, t));
    }

    /** The wake-up at the end of a write. */
    ghost method WakeReadQueue(t: nat)
      requires Valid() && t < |writers| && writers[t].WWake?
      modifies this
      ensures Valid() && Step(old(View()), WriteGoes(t), View())
      ensures msgList == old(msgList) && queuedBytes == old(queuedBytes)
    {
      Record(View(), WriteGoes(t), WriteStep(View(), t));
    }

    method PollMask() returns (readable: bool, writable: bool)
      requires Valid()
      ensures (readable, writable) == Poll(View())
      ensures (readable <==> msgList != []) && (writable <==> queuedBytes < MAX_BYTES)
      ensures readable || writable
    {
      readable, writable := msgList != [], queuedBytes < MAX_BYTES;
    }
  }
}
