/** What every interleaving of the message device guarantees. */
module MessageTheorems {
  import opened MessageQueue
  import opened MessageSafety
  import opened Tickets

  /** A sleeping reader means an empty list or a pending wake; a sleeping writer means
      no room for its message or a pending wake. */
  lemma NoLostWakeups(s: State, readers: nat, writers: nat)
    requires Reachable(s, readers, writers)
    ensures forall t :: 0 <= t < |s.readers| && s.readers[t].RAsleep? ==> s.queue == [] || ReadWakePending(s)
    ensures forall t :: 0 <= t < |s.writers| && s.writers[t].WAsleep? ==>
      s.queued + |s.writers[t].data| > MAX_BYTES || WriteWakePending(s)
  {
    ReachableInv(s, readers, writers);
  }

  /** When no wake is pending, readers and writers do not sleep at the same time. */
  lemma NoMutualBlock(s: State, readers: nat, writers: nat)
    requires Reachable(s, readers, writers)
    requires !ReadWakePending(s) && !WriteWakePending(s)
    ensures !((exists t :: 0 <= t < |s.readers| && s.readers[t].RAsleep?)
           && (exists t :: 0 <= t < |s.writers| && s.writers[t].WAsleep?))
  {
    ReachableInv(s, readers, writers);
  }

  /** Messages leave in the order in which they were appended, each belongs to exactly
      one read call, running or returned, and a successful call returned the start of
      the one it names. */
  lemma WholeRunFifo(s: State, readers: nat, writers: nat)
    requires Reachable(s, readers, writers)
    ensures s.removed + s.queue == s.appended
    ensures s.queued == Bytes(s.queue)
    ensures EachOnce(ReadTickets(s.readers), ReadReceipts(s.log), |s.removed|)
    ensures forall k :: 0 <= k < |s.log| && s.log[k].Got? ==>
      s.log[k].index < |s.removed| && s.log[k].bytes == Truncate(s.appended[s.log[k].index], s.log[k].count)
  {
    ReachableInv(s, readers, writers);
    forall k | 0 <= k < |s.log| && s.log[k].Got?
      ensures ReadHonest(s.log[k], s.removed)
    {}
  }

  /** A write returned that appended message `i`, and reported its length. */
  ghost predicate Reported(s: State, i: nat)
    requires i < |s.appended|
  {
    exists k :: 0 <= k < |s.log| && s.log[k] == Wrote(i, |s.appended[i]|)
  }

  /** Every appended message belongs to exactly one write call, which reports its length
      and has yet to wake the readers or has returned; no other write appended anything. */
  lemma WritesAccounted(s: State, readers: nat, writers: nat)
    requires Reachable(s, readers, writers)
    ensures EachOnce(WriteTickets(s.writers), WriteReceipts(s.log), |s.appended|)
    ensures forall k :: 0 <= k < |s.log| && s.log[k].Wrote? ==>
      s.log[k].index < |s.appended| && s.log[k].count == |s.appended[s.log[k].index]|
    ensures !ReadWakePending(s) ==> forall i: nat :: i < |s.appended| ==> Reported(s, i)
  {
    ReachableInv(s, readers, writers);
    forall k | 0 <= k < |s.log| && s.log[k].Wrote?
      ensures WriteHonest(s.log[k], s.appended)
    {}
    if !ReadWakePending(s) {
      forall i: nat | i < |s.appended|
        ensures Reported(s, i)
      {
        ReturnedWrite(s, i);
      }
    }
  }

  lemma ReturnedWrite(s: State, i: nat)
    requires WritesOwned(s) && !ReadWakePending(s) && i < |s.appended|
    ensures Reported(s, i)
  {
    var held, filed := WriteTickets(s.writers), WriteReceipts(s.log);
    assert forall t :: 0 <= t < |held| ==> held[t] == NoTicket;
    assert Ticket(i) in held || Ticket(i) in filed;
    var k :| 0 <= k < |filed| && filed[k] == Ticket(i);
    assert WriteHonest(s.log[k], s.appended);
    assert s.log[k] == Wrote(i, |s.appended[i]|);
  }

  /** The subtraction on removal never goes below zero. */
  lemma RemovalNeverUnderflows(s: State, readers: nat, writers: nat, t: nat)
    requires Reachable(s, readers, writers) && t < |s.readers| && s.readers[t].RTake? && s.queue != []
    ensures s.queued >= |s.queue[0]|
    ensures ReadStep(s, t).queued >= 0
  {
    ReachableInv(s, readers, writers);
    BytesTail(s.queue);
  }

  /** With `n` writers the queue exceeds the cap by at most `n - 1` messages. */
  lemma OvershootBound(s: State, readers: nat, writers: nat)
    requires Reachable(s, readers, writers) && writers >= 1
    ensures s.queued + InFlight(s.writers) <= MAX_BYTES + (writers - 1) * MAX_MSG
    ensures writers == 1 ==> s.queued <= MAX_BYTES
  {
    ReachableInv(s, readers, writers);
  }

  /** A device that is not readable is writable. */
  lemma PollNeverBlank(s: State, readers: nat, writers: nat)
    requires Reachable(s, readers, writers)
    ensures Poll(s) != (false, false)
  {
    ReachableInv(s, readers, writers);
  }

  // ----- one reader

  /** With one reader thread nobody else removes messages, so what it saw stays true. */
  ghost predicate Solo(s: State) {
    |s.readers| == 1 ==>
      && (s.readers[0].RTake? ==> s.queue != [])
      && (s.readers[0].RWait? && s.readers[0].nonblock ==> s.queue != [])
      && (s.readers[0].RAsleep? ==> !s.readers[0].nonblock)
  }

  lemma SoloStep(s: State, e: Event, s': State)
    requires Solo(s) && Step(s, e, s')
    ensures Solo(s')
  {
    if !ByReader(e) {
      WriterEffect(s, e, s');
      hide Step;
    }
  }

  lemma {:induction false} SoloRun(ss: seq<State>, es: seq<Event>, readers: nat, writers: nat, i: nat)
    requires Run(ss, es, readers, writers) && i < |ss|
    ensures Solo(ss[i])
  {
    if i > 0 {
      SoloRun(ss, es, readers, writers, i - 1);
      SoloStep(ss[i - 1], es[i - 1], ss[i]);
    }
  }

  ghost predicate NonblockingAsleep(s: State) {
    exists t :: 0 <= t < |s.readers| && s.readers[t].RAsleep? && s.readers[t].nonblock
  }

  /** A single reader never sleeps in a non-blocking call, and never finds the list
      empty after its wait. */
  lemma SingleReader(s: State, writers: nat)
    requires Reachable(s, 1, writers)
    ensures !NonblockingAsleep(s)
    ensures forall t :: 0 <= t < |s.readers| && s.readers[t].RTake? ==> s.queue != []
  {
    ReachableInv(s, 1, writers);
    var ss, es :| Run(ss, es, 1, writers) && ss[|es|] == s;
    SoloRun(ss, es, 1, writers, |es|);
  }
}
