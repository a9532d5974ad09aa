/** Runs that reach the limits: the overshoot bound is attained for every number of
    writers, and a non-blocking reader can sleep as soon as there is a second one. */
module MessageRuns {
  import opened MessageQueue
  import opened MessageSafety
  import opened MessageTheorems

  lemma ReachInitial(readers: nat, writers: nat)
    ensures Reachable(Initial(readers, writers), readers, writers)
  {
    assert Run([Initial(readers, writers)], [], readers, writers);
  }

  lemma ReachStep(s: State, e: Event, s': State, readers: nat, writers: nat)
    requires Reachable(s, readers, writers) && Step(s, e, s')
    ensures Reachable(s', readers, writers)
  {
    var ss, es :| Run(ss, es, readers, writers) && ss[|es|] == s;
    assert Run(ss + [s'], es + [e], readers, writers);
    assert (ss + [s'])[|es + [e]|] == s';
  }

  /** A writer that finds room gets as far as the append. */
  lemma Admit(s: State, t: nat, data: Message, readers: nat, writers: nat) returns (s': State)
    requires Reachable(s, readers, writers)
    requires t < |s.writers| && s.writers[t].WIdle? && 1 <= |data| <= MAX_MSG && s.queued + |data| <= MAX_BYTES
    ensures s' == WriterTo(s, t, WAppend(data)) && Reachable(s', readers, writers)
  {
    s' := WriterTo(s, t, WCheck(data, false));
    ReachStep(s, WriteCall(t, data, false), s', readers, writers);
    ReachStep(s', WriteGoes(t), WriterTo(s', t, WAlloc(data)), readers, writers);
    s' := WriterTo(s', t, WAlloc(data));
    ReachStep(s', WriteGoes(t), WriterTo(s', t, WFill(data)), readers, writers);
    s' := WriterTo(s', t, WFill(data));
    ReachStep(s', WriteGoes(t), WriterTo(s', t, WAppend(data)), readers, writers);
    s' := WriterTo(s', t, WAppend(data));
    assert s'.writers == s.writers[t := WAppend(data)];
  }

  lemma Append(s: State, t: nat, readers: nat, writers: nat) returns (s': State)
    requires Reachable(s, readers, writers) && t < |s.writers| && s.writers[t].WAppend?
    ensures s' == WriteStep(s, t) && Reachable(s', readers, writers)
  {
    s' := WriteStep(s, t);
    ReachStep(s, WriteGoes(t), s', readers, writers);
  }

  ghost predicate AllIdle(s: State) {
    && (forall t :: 0 <= t < |s.readers| ==> s.readers[t].RIdle?)
    && (forall t :: 0 <= t < |s.writers| ==> s.writers[t].WIdle?)
  }

  /** One whole uninterrupted write. */
  lemma WriteWhole(s: State, t: nat, data: Message, readers: nat, writers: nat) returns (s': State)
    requires Reachable(s, readers, writers) && AllIdle(s)
    requires t < |s.writers| && 1 <= |data| <= MAX_MSG && s.queued + |data| <= MAX_BYTES
    ensures Reachable(s', readers, writers) && AllIdle(s')
    ensures s'.queue == s.queue + [data] && s'.queued == s.queued + |data|
    ensures |s'.readers| == |s.readers| && |s'.writers| == |s.writers|
  {
    var a := Admit(s, t, data, readers, writers);
    var b := Append(a, t, readers, writers);
    s' := WriteStep(b, t);
    ReachStep(b, WriteGoes(t), s', readers, writers);
  }

  function Full(): (m: Message)
    ensures |m| == MAX_MSG
  {
    seq(MAX_MSG, _ => 0)
  }

  lemma {:induction false} Fill(k: nat, readers: nat, writers: nat) returns (s: State)
    requires k * MAX_MSG <= MAX_BYTES && writers >= 1
    ensures Reachable(s, readers, writers) && AllIdle(s) && s.queued == k * MAX_MSG
    ensures |s.readers| == readers && |s.writers| == writers
  {
    if k == 0 {
      s := Initial(readers, writers);
      ReachInitial(readers, writers);
    } else {
      s := Fill(k - 1, readers, writers);
      s := WriteWhole(s, 0, Full(), readers, writers);
    }
  }

  /** The first `i` writers pass the check one after the other. */
  lemma {:induction false} AdmitMany(i: nat, readers: nat, writers: nat) returns (s: State)
    requires i <= writers && writers >= 1
    ensures Reachable(s, readers, writers) && |s.writers| == writers
    ensures s.queued == MAX_BYTES - MAX_MSG
    ensures forall t :: 0 <= t < writers ==> s.writers[t] == if t < i then WAppend(Full()) else WIdle
  {
    if i == 0 {
      s := Fill(15, readers, writers);
    } else {
      s := AdmitMany(i - 1, readers, writers);
      s := Admit(s, i - 1, Full(), readers, writers);
    }
  }

  lemma {:induction false} AppendMany(i: nat, readers: nat, writers: nat) returns (s: State)
    requires i <= writers && writers >= 1
    ensures Reachable(s, readers, writers) && |s.writers| == writers
    ensures s.queued == MAX_BYTES - MAX_MSG + i * MAX_MSG
    ensures forall t :: i <= t < writers ==> s.writers[t] == WAppend(Full())
  {
    if i == 0 {
      s := AdmitMany(writers, readers, writers);
    } else {
      s := AppendMany(i - 1, readers, writers);
      s := Append(s, i - 1, readers, writers);
    }
  }

  /** The overshoot bound is attained. */
  lemma OvershootAttained(readers: nat, writers: nat) returns (s: State)
    requires writers >= 1
    ensures Reachable(s, readers, writers) && s.queued == MAX_BYTES + (writers - 1) * MAX_MSG
  {
    s := AppendMany(writers, readers, writers);
  }

  /** The documented cap of `MAX_BYTES` holds in every run iff there is one writer. */
  lemma CapHoldsIffOneWriter(readers: nat, writers: nat)
    requires writers >= 1
    ensures (forall s :: Reachable(s, readers, writers) ==> s.queued <= MAX_BYTES) <==> writers == 1
  {
    if writers == 1 {
      forall s | Reachable(s, readers, writers)
        ensures s.queued <= MAX_BYTES
      {
        OvershootBound(s, readers, writers);
      }
    } else {
      var s := OvershootAttained(readers, writers);
      assert s.queued > MAX_BYTES;
    }
  }

  // ----- a non-blocking reader that sleeps

  lemma ReadGo(s: State, t: nat, readers: nat, writers: nat) returns (s': State)
    requires Reachable(s, readers, writers) && Enabled(s, ReadGoes(t))
    ensures s' == ReadStep(s, t) && Reachable(s', readers, writers)
  {
    s' := ReadStep(s, t);
    ReachStep(s, ReadGoes(t), s', readers, writers);
  }

  /** One message, two readers: the first looks and sees it, the second takes it, the
      first waits for the next one although it asked not to. */
  lemma NonblockingSleeps(readers: nat, writers: nat) returns (s: State)
    requires readers >= 2 && writers >= 1
    ensures Reachable(s, readers, writers) && NonblockingAsleep(s)
  {
    var start := Initial(readers, writers);
    ReachInitial(readers, writers);
    s := WriteWhole(start, 0, Full(), readers, writers);
    var c := ReaderTo(s, 0, RProbe(1));
    ReachStep(s, ReadCall(0, 1, true), c, readers, writers);
    c := ReadGo(c, 0, readers, writers);
    var d := ReaderTo(c, 1, RWait(1, false));
    ReachStep(c, ReadCall(1, 1, false), d, readers, writers);
    d := ReadGo(d, 1, readers, writers);
    d := ReadGo(d, 1, readers, writers);
    s := ReadGo(d, 0, readers, writers);
    assert s.readers[0] == RAsleep(1, true);
  }

  /** A non-blocking read can sleep iff there are at least two readers. */
  lemma NonblockingSleepsIffTwoReaders(readers: nat, writers: nat)
    requires writers >= 1
    ensures (exists s :: Reachable(s, readers, writers) && NonblockingAsleep(s)) <==> readers >= 2
  {
    if readers >= 2 {
      var s := NonblockingSleeps(readers, writers);
    } else {
      forall s | Reachable(s, readers, writers)
        ensures !NonblockingAsleep(s)
      {
        ReachableInv(s, readers, writers);
        if readers == 1 {
          SingleReader(s, writers);
        }
      }
    }
  }

  // ----- a blocking reader that gives up

  /** A blocking read that saw a message, and finds the list empty under the lock. */
  ghost predicate BlockingGivesUp(s: State) {
    s.queue == [] && exists t :: 0 <= t < |s.readers| && s.readers[t].RTake? && !s.readers[t].nonblock
  }

  /** Two readers see the only message and the second one takes it. */
  lemma RaceLost(readers: nat, writers: nat) returns (s: State)
    requires readers >= 2 && writers >= 1
    ensures Reachable(s, readers, writers) && BlockingGivesUp(s)
  {
    ReachInitial(readers, writers);
    s := WriteWhole(Initial(readers, writers), 0, Full(), readers, writers);
    var a := ReaderTo(s, 0, RWait(1, false));
    ReachStep(s, ReadCall(0, 1, false), a, readers, writers);
    a := ReadGo(a, 0, readers, writers);
    var b := ReaderTo(a, 1, RWait(1, false));
    ReachStep(a, ReadCall(1, 1, false), b, readers, writers);
    b := ReadGo(b, 1, readers, writers);
    s := ReadGo(b, 1, readers, writers);
    assert s.readers[0] == RTake(1, false);
  }

  /** A blocking read can return -EAGAIN iff there are at least two readers. */
  lemma BlockingGivesUpIffTwoReaders(readers: nat, writers: nat)
    requires writers >= 1
    ensures (exists s :: Reachable(s, readers, writers) && BlockingGivesUp(s)) <==> readers >= 2
  {
    if readers >= 2 {
      var s := RaceLost(readers, writers);
    } else {
      forall s | Reachable(s, readers, writers)
        ensures !BlockingGivesUp(s)
      {
        ReachableInv(s, readers, writers);
        if readers == 1 {
          SingleReader(s, writers);
        }
      }
    }
  }
}
