/** The ring device with its calls cut where the code cuts them: a reader tests the flag
    before it takes the semaphore, and a writer raises it after releasing it. */
module RingRaces {
  import opened Octets
  import opened RingBuffer

  datatype Event =
    | Fill(bytes: seq<Byte>)
    | FillFault(junk: seq<Byte>)
    | Raise
    | Pass
    | Take(len: nat)
    | TakeFault
    | GiveUp

  /** `passed` readers are between the test and the semaphore, `raising` writers between
      the semaphore and the flag. */
  datatype State = State(history: History, passed: nat, raising: nat)

  const START := State(History(RingBuffer.Initial(), [], []), 0, 0)

  function WithFlag(h: History, flag: bool): History {
    h.(ring := h.ring.(flag := flag))
  }

  ghost predicate StepTo(s: State, e: Event, s': State) {
    var h := s.history;
    && h.ring.Valid()
    && match e
       case Fill(bytes) => s' == State(WithFlag(After(h, Put(bytes)), h.ring.flag), s.passed, s.raising + 1)
       case FillFault(junk) =>
         0 < |junk| == Accepts(h.ring, |junk|) && s' == s.(history := After(h, PutFault(junk)))
       case Raise => s.raising > 0 && s' == State(WithFlag(h, true), s.passed, s.raising - 1)
       case Pass => h.ring.flag && s' == s.(passed := s.passed + 1)
       case Take(len) => s.passed > 0 && s' == State(After(h, Get(len)), s.passed - 1, s.raising)
       case TakeFault => s.passed > 0 && s' == State(WithFlag(h, false), s.passed - 1, s.raising)
       case GiveUp => s.passed > 0 && s' == s.(passed := s.passed - 1)
  }

  ghost predicate Interleaving(ss: seq<State>, es: seq<Event>) {
    && |ss| == |es| + 1
    && ss[0] == START
    && forall i {:trigger es[i]} :: 0 <= i < |es| ==> StepTo(ss[i], es[i], ss[i + 1])
  }

  /** Bytes returned, then the bytes of a queue in the ring, are the bytes accepted. */
  ghost predicate Balanced(h: History, q: seq<Byte>) {
    HoldsQueue(h.ring, q) && h.accepted == h.returned + q
  }

  ghost predicate Sound(s: State) {
    exists q :: Balanced(s.history, q)
  }

  /** No write into a full ring, and no read from an empty one. */
  predicate Safe(e: Event, h: History) {
    match e
    case Fill(bytes) => bytes == [] || Held(h) < MAXNUM
    case FillFault(junk) => Held(h) < MAXNUM || junk <= h.ring.buf
    case Take(len) => len == 0 || Held(h) > 0
    case _ => true
  }

  ghost predicate AllSafe(ss: seq<State>, es: seq<Event>)
    requires |ss| == |es| + 1
  {
    forall i :: 0 <= i < |es| ==> Safe(es[i], ss[i].history)
  }

  lemma HoldsAnyFlag(r: Ring, q: seq<Byte>, flag: bool)
    ensures HoldsQueue(r.(flag := flag), q) <==> HoldsQueue(r, q)
  {}

  lemma Append(accepted: seq<Byte>, returned: seq<Byte>, q: seq<Byte>, more: seq<Byte>)
    ensures accepted == returned + q ==> accepted + more == returned + (q + more)
    ensures accepted == returned + (q + more) ==> accepted == (returned + q) + more
  {}

  lemma FillBalanced(h: History, q: seq<Byte>, bytes: seq<Byte>)
    requires Balanced(h, q) && Safe(Fill(bytes), h)
    ensures Balanced(WithFlag(After(h, Put(bytes)), h.ring.flag), q + bytes[..Accepts(h.ring, |bytes|)])
  {
    var more := bytes[..Accepts(h.ring, |bytes|)];
    assert HoldsQueue(Write(h.ring, bytes), q + more) by {
      WriteRefines(h.ring, q, bytes);
    }
    HoldsAnyFlag(Write(h.ring, bytes), q + more, h.ring.flag);
    Append(h.accepted, h.returned, q, more);
  }

  lemma TakeBalanced(h: History, q: seq<Byte>, len: nat) returns (q': seq<Byte>)
    requires Balanced(h, q) && Safe(Take(len), h)
    ensures Balanced(After(h, Get(len)), q')
  {
    if q == [] {
      q' := q;
      HoldsAnyFlag(h.ring, q, false);
      assert Read(h.ring, len).0 == h.ring.(flag := false) && Read(h.ring, len).1 == [];
    } else {
      var n, bytes := Yields(h.ring, len), Read(h.ring, len).1;
      ReadRefines(h.ring, q, len);
      q' := q[n..];
      hide HoldsQueue, Read;
      assert q == bytes + q';
      Append(h.accepted, h.returned, bytes, q');
      assert h.accepted == (h.returned + bytes) + q';
    }
  }

  lemma SafeStep(s: State, e: Event, s': State)
    requires Sound(s) && StepTo(s, e, s') && Safe(e, s.history)
    ensures Sound(s')
  {
    var h := s.history;
    var q :| Balanced(h, q);
    match e
    case Fill(bytes) =>
      FillBalanced(h, q, bytes);
    case FillFault(junk) =>
      FaultRefines(h.ring, q, junk);
      assert Balanced(s'.history, q);
    case Take(len) =>
      var q' := TakeBalanced(h, q, len);
    case _ =>
      HoldsAnyFlag(h.ring, q, s'.history.ring.flag);
      assert Balanced(s'.history, q);
  }

  lemma SameQueue(h: History, q: seq<Byte>, h': History, q': seq<Byte>)
    requires Balanced(h, q) && Balanced(h', q') && h'.accepted == h.accepted && h'.returned == h.returned
    ensures q' == q
  {
    assert q == h.accepted[|h.returned|..] && q' == h'.accepted[|h'.returned|..];
  }

  lemma UnsafeStep(s: State, e: Event, s': State)
    requires Sound(s) && StepTo(s, e, s') && !Safe(e, s.history)
    ensures !Sound(s')
  {
    var h, h' := s.history, s'.history;
    var q :| Balanced(h, q);
    if q' :| Balanced(h', q') {
      if e.FillFault? {
        SameQueue(h, q, h', q');
        FaultRefines(h.ring, q, e.junk);
      }
    }
  }

  lemma {:induction false} SafeRun(ss: seq<State>, es: seq<Event>, i: nat)
    requires Interleaving(ss, es) && AllSafe(ss, es) && i < |ss|
    ensures Sound(ss[i])
  {
    if i == 0 {
      assert Balanced(START.history, []);
    } else {
      SafeRun(ss, es, i - 1);
      assert Safe(es[i - 1], ss[i - 1].history);
      SafeStep(ss[i - 1], es[i - 1], ss[i]);
    }
  }

  /** Over every interleaving: the ring stays a queue of bytes throughout iff no write
      meets a full ring and no read an empty one. */
  lemma SoundExactly(ss: seq<State>, es: seq<Event>)
    requires Interleaving(ss, es)
    ensures (forall i :: 0 <= i < |ss| ==> Sound(ss[i])) <==> AllSafe(ss, es)
  {
    if AllSafe(ss, es) {
      forall i | 0 <= i < |ss|
        ensures Sound(ss[i])
      {
        SafeRun(ss, es, i);
      }
    } else {
      var i :| 0 <= i < |es| && !Safe(es[i], ss[i].history);
      if Sound(ss[i]) {
        UnsafeStep(ss[i], es[i], ss[i + 1]);
      }
    }
  }

  // ----- calls that run alone

  /** A write is a fill and a raise with nothing between them. */
  lemma WriteIsFillAndRaise(h: History, bytes: seq<Byte>, h': History)
    requires h.ring.Valid()
    ensures Step(h, Put(bytes), h') <==>
      exists mid :: StepTo(State(h, 0, 0), Fill(bytes), mid) && StepTo(mid, Raise, State(h', 0, 0))
  {
    var mid := State(WithFlag(After(h, Put(bytes)), h.ring.flag), 0, 1);
    assert StepTo(State(h, 0, 0), Fill(bytes), mid);
    assert After(h, Put(bytes)) == WithFlag(mid.history, true);
  }

  /** A read is a pass and a take with nothing between them. */
  lemma ReadIsPassAndTake(h: History, len: nat, h': History)
    requires h.ring.Valid()
    ensures Step(h, Get(len), h') <==>
      exists mid :: StepTo(State(h, 0, 0), Pass, mid) && StepTo(mid, Take(len), State(h', 0, 0))
    ensures Step(h, GetFault, h') <==>
      exists mid :: StepTo(State(h, 0, 0), Pass, mid) && StepTo(mid, TakeFault, State(h', 0, 0))
  {
    var mid := State(h, 1, 0);
    assert h.ring.flag ==> StepTo(State(h, 0, 0), Pass, mid);
    assert WithFlag(h, false) == After(h, GetFault);
  }

  // ----- two races

  lemma Then(ss: seq<State>, es: seq<Event>, e: Event, s: State) returns (ss': seq<State>, es': seq<Event>)
    requires Interleaving(ss, es) && StepTo(ss[|es|], e, s)
    ensures ss' == ss + [s] && es' == es + [e] && Interleaving(ss', es')
  {
    ss', es' := ss + [s], es + [e];
  }

  /** Two readers pass the test for one byte, and the second returns a byte that nobody
      wrote. */
  lemma TwoReadersRace(b: Byte) returns (ss: seq<State>, es: seq<Event>)
    ensures Interleaving(ss, es) && es == [Fill([b]), Raise, Pass, Pass, Take(1), Take(1)]
    ensures !Sound(ss[6]) && |ss[6].history.returned| == 2 && ss[6].history.accepted == [b]
  {
    ss, es := [START], [];
    var h := WithFlag(After(START.history, Put([b])), false);
    ss, es := Then(ss, es, Fill([b]), State(h, 0, 1));
    ss, es := Then(ss, es, Raise, State(WithFlag(h, true), 0, 0));
    ss, es := Then(ss, es, Pass, State(WithFlag(h, true), 1, 0));
    ss, es := Then(ss, es, Pass, State(WithFlag(h, true), 2, 0));
    var h' := After(WithFlag(h, true), Get(1));
    ss, es := Then(ss, es, Take(1), State(h', 1, 0));
    ss, es := Then(ss, es, Take(1), State(After(h', Get(1)), 0, 0));
  }

  ghost predicate OneOfEach(ss: seq<State>) {
    forall i :: 0 <= i < |ss| ==> ss[i].passed <= 1 && ss[i].raising <= 1
  }

  /** The writer is at its second byte before the reader has taken the first. */
  lemma BothWritten(a: Byte, b: Byte) returns (ss: seq<State>, es: seq<Event>, h: History)
    ensures Interleaving(ss, es) && OneOfEach(ss) && es == [Fill([a]), Raise, Pass, Fill([b])]
    ensures ss[4] == State(h, 1, 1) && h.ring.Valid() && h.ring.rd == 0 && h.ring.wr == 2
    ensures h.accepted == [a, b] && h.returned == []
  {
    ss, es := [START], [];
    h := WithFlag(After(START.history, Put([a])), false);
    ss, es := Then(ss, es, Fill([a]), State(h, 0, 1));
    h := WithFlag(h, true);
    ss, es := Then(ss, es, Raise, State(h, 0, 0));
    ss, es := Then(ss, es, Pass, State(h, 1, 0));
    h := WithFlag(After(h, Put([b])), true);
    ss, es := Then(ss, es, Fill([b]), State(h, 1, 1));
  }

  /** One reader and one writer are enough: the flag of the second write goes up after
      the reader has taken both bytes. */
  lemma LateFlagRace(a: Byte, b: Byte) returns (ss: seq<State>, es: seq<Event>)
    ensures Interleaving(ss, es) && OneOfEach(ss)
    ensures es == [Fill([a]), Raise, Pass, Fill([b]), Take(2), Raise, Pass, Take(1)]
    ensures !Sound(ss[8]) && |ss[8].history.returned| == 3 && ss[8].history.accepted == [a, b]
  {
    var h;
    ss, es, h := BothWritten(a, b);
    h := After(h, Get(2));
    ss, es := Then(ss, es, Take(2), State(h, 0, 1));
    h := WithFlag(h, true);
    ss, es := Then(ss, es, Raise, State(h, 0, 0));
    ss, es := Then(ss, es, Pass, State(h, 1, 0));
    h := After(h, Get(1));
    ss, es := Then(ss, es, Take(1), State(h, 0, 0));
  }
}
