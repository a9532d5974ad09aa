/** The FIFO simulator on every input, and exactly when it is the FIFO queue. */
module FifoSimulator {
  import opened Arithmetic
  import opened Sequences
  import opened Paging
  import opened PageFrames

  datatype FifoState = FifoState(frames: seq<int>, ptr: nat)

  /** The slot after `i`, which is what `(i + 1) % k` computes. */
  function After(i: nat, k: nat): nat {
    if i + 1 == k then 0 else i + 1
  }

  /** One request: a page in no slot goes to the first slot marked empty, or else to the
      one under the pointer, and the pointer to the slot after it. */
  function Request(s: FifoState, p: int): (r: FifoState)
    requires s.ptr < |s.frames|
    ensures |r.frames| == |s.frames| && r.ptr < |r.frames|
  {
    if p in s.frames then s
    else
      var i := if EMPTY in s.frames then IndexOf(s.frames, EMPTY) else s.ptr;
      FifoState(s.frames[i := p], After(i, |s.frames|))
  }

  function Slots(reqs: seq<int>, k: nat): (s: FifoState)
    requires k >= 1
    ensures |s.frames| == k && s.ptr < k
  {
    if reqs == [] then FifoState(seq(k, _ => EMPTY), 0) else Request(Slots(Init(reqs), k), Last(reqs))
  }

  function Misses(reqs: seq<int>, k: nat): nat
    requires k >= 1
  {
    if reqs == [] then 0
    else Misses(Init(reqs), k) + if Last(reqs) in Slots(Init(reqs), k).frames then 0 else 1
  }

  /** Slots `[0..|q|)` hold the queue, read cyclically from `ptr` once all are full. */
  ghost predicate HoldsQueue(s: FifoState, q: seq<int>) {
    && |q| <= |s.frames|
    && (|q| < |s.frames| ==>
          s.ptr == |q| && s.frames[..|q|] == q && forall i :: |q| <= i < |s.frames| ==> s.frames[i] == EMPTY)
    && (|q| == |s.frames| ==> s.ptr < |s.frames| && s.frames[s.ptr..] + s.frames[..s.ptr] == q)
  }

  // ----- one request

  lemma Members(s: FifoState, q: seq<int>, p: int)
    requires HoldsQueue(s, q)
    ensures p in s.frames <==> p in q || (p == EMPTY && |q| < |s.frames|)
  {
    if |q| < |s.frames| {
      assert s.frames == s.frames[..|q|] + s.frames[|q|..];
      assert s.frames[|q|] == EMPTY;
    } else {
      assert s.frames == s.frames[..s.ptr] + s.frames[s.ptr..];
    }
  }

  lemma FirstEmpty(s: FifoState, q: seq<int>)
    requires HoldsQueue(s, q) && |q| < |s.frames| && EMPTY !in q
    ensures EMPTY in s.frames && IndexOf(s.frames, EMPTY) == |q|
  {
    assert s.frames[|q|] == EMPTY;
    IndexIs(s.frames, EMPTY, |q|);
  }

  lemma PlaceInEmpty(s: FifoState, q: seq<int>, p: int)
    requires HoldsQueue(s, q) && |q| < |s.frames|
    ensures HoldsQueue(FifoState(s.frames[|q| := p], After(|q|, |s.frames|)), Newest(q + [p], |s.frames|))
  {
    var next := s.frames[|q| := p];
    assert next[..|q| + 1] == q + [p];
    assert Newest(q + [p], |s.frames|) == q + [p];
    if |q| + 1 == |s.frames| {
      assert next[0..] + next[..0] == q + [p];
    }
  }

  /** With all slots full the one under the pointer holds the oldest page. */
  lemma Replace(s: FifoState, q: seq<int>, p: int)
    requires HoldsQueue(s, q) && |q| == |s.frames|
    ensures s.frames[s.ptr] == q[0]
    ensures HoldsQueue(FifoState(s.frames[s.ptr := p], After(s.ptr, |s.frames|)), Newest(q + [p], |s.frames|))
  {
    var next := s.frames[s.ptr := p];
    assert q[1..] == s.frames[s.ptr + 1..] + s.frames[..s.ptr];
    assert Newest(q + [p], |s.frames|) == q[1..] + [p];
    if s.ptr + 1 == |s.frames| {
      assert next[0..] + next[..0] == q[1..] + [p];
    } else {
      assert next[s.ptr + 1..] + next[..s.ptr + 1] == q[1..] + [p];
    }
  }

  lemma SlotsDistinct(s: FifoState, q: seq<int>)
    requires HoldsQueue(s, q) && |q| == |s.frames| && Distinct(q)
    ensures Distinct(s.frames)
  {
    var k := |q|;
    forall i, j | 0 <= i < j < k
      ensures s.frames[i] != s.frames[j]
    {
      assert s.frames[i] == q[if i < s.ptr then k - s.ptr + i else i - s.ptr];
      assert s.frames[j] == q[if j < s.ptr then k - s.ptr + j else j - s.ptr];
    }
  }

  /** A faithful request is one step of the queue. */
  lemma FaithfulRequest(s: FifoState, q: seq<int>, p: int)
    requires HoldsQueue(s, q) && Distinct(q) && Marked(q, |s.frames|) && s.ptr < |s.frames|
    requires Faithful(q, |s.frames|, p)
    ensures p in s.frames <==> p in q
    ensures HoldsQueue(Request(s, p), FifoStep(q, p, |s.frames|))
    ensures p !in q ==> Request(s, p) == FifoState(s.frames[s.ptr := p], After(s.ptr, |s.frames|))
  {
    Members(s, q, p);
    if p !in q {
      Members(s, q, EMPTY);
      if |q| < |s.frames| {
        FirstEmpty(s, q);
        PlaceInEmpty(s, q, p);
      } else {
        Replace(s, q, p);
        if EMPTY in q {
          SlotsDistinct(s, q);
          OnlyIndex(s.frames, s.ptr);
        }
      }
    }
  }

  lemma EmptyGone(frames: seq<int>, i: nat, p: int)
    requires Distinct(frames) && i < |frames| && frames[i] == EMPTY && p != EMPTY
    ensures EMPTY !in frames[i := p]
  {}

  lemma EmptyStays(q: seq<int>, p: int, k: nat)
    requires |q| == k && p !in q && EMPTY in q && q[0] != EMPTY
    ensures EMPTY in FifoStep(q, p, k)
  {
    var j :| 0 <= j < |q| && q[j] == EMPTY;
    assert FifoStep(q, p, k) == q[1..] + [p];
    assert FifoStep(q, p, k)[j - 1] == EMPTY;
  }

  /** Any other request is either counted wrongly or puts the page in a wrong slot. */
  lemma UnfaithfulRequest(s: FifoState, q: seq<int>, p: int)
    requires HoldsQueue(s, q) && Distinct(q) && Marked(q, |s.frames|) && s.ptr < |s.frames|
    requires !Faithful(q, |s.frames|, p)
    ensures (p in s.frames) == (p in q) ==> !HoldsQueue(Request(s, p), FifoStep(q, p, |s.frames|))
  {
    Members(s, q, p);
    if (p in s.frames) == (p in q) {
      // page -1 is resident, not the oldest, and loses its slot to `p`
      Members(s, q, EMPTY);
      SlotsDistinct(s, q);
      EmptyGone(s.frames, IndexOf(s.frames, EMPTY), p);
      EmptyStays(q, p, |s.frames|);
      var next, q' := Request(s, p), FifoStep(q, p, |s.frames|);
      assert EMPTY !in next.frames;
      hide HoldsQueue, Request, FifoStep, Distinct;
      if HoldsQueue(next, q') {
        Members(next, q', EMPTY);
      }
    }
  }

  // ----- all requests

  /** Slots, pointer and fault count are those of the queue. */
  ghost predicate QueueAgrees(reqs: seq<int>, k: nat)
    requires k >= 1
  {
    HoldsQueue(Slots(reqs, k), Fifo(reqs, k)) && Misses(reqs, k) == FifoFaults(reqs, k)
  }

  ghost predicate AllFaithful(reqs: seq<int>, k: nat) {
    forall n :: 0 <= n < |reqs| ==> FaithfulAt(reqs, k, n)
  }

  ghost predicate FaithfulAt(reqs: seq<int>, k: nat, n: nat)
    requires n < |reqs|
  {
    Faithful(Fifo(reqs[..n], k), k, reqs[n])
  }

  lemma OneMore(reqs: seq<int>, n: nat, k: nat)
    requires k >= 1 && n < |reqs|
    ensures Slots(reqs[..n + 1], k) == Request(Slots(reqs[..n], k), reqs[n])
    ensures Misses(reqs[..n + 1], k) == Misses(reqs[..n], k) + if reqs[n] in Slots(reqs[..n], k).frames then 0 else 1
    ensures Fifo(reqs[..n + 1], k) == FifoStep(Fifo(reqs[..n], k), reqs[n], k)
    ensures FifoFaults(reqs[..n + 1], k) == FifoFaults(reqs[..n], k) + if reqs[n] in Fifo(reqs[..n], k) then 0 else 1
  {
    assert Init(reqs[..n + 1]) == reqs[..n];
  }

  lemma Remainder(k: nat, q: int, r: nat)
    requires r < k
    ensures (k * q + r) % k == r
  {
    var x := k * q + r;
    var d := q - x / k;
    assert k * d == x % k - r;
    if d >= 1 {
      Monotone(k, 1, d);
    } else if d <= -1 {
      Monotone(k, d, -1);
    }
  }

  lemma AfterIsMod(i: nat, k: nat)
    requires i < k
    ensures (i + 1) % k == After(i, k)
  {
    if i + 1 < k {
      assert (i + 1) / k == 0;
    }
  }

  /** Where the pointer is after so many faults. */
  function Turn(faults: nat, k: nat): nat
    requires k >= 1
  {
    faults % k
  }

  lemma NextTurn(faults: nat, k: nat)
    requires k >= 1
    ensures After(Turn(faults, k), k) == Turn(faults + 1, k)
  {
    var turns := faults / k;
    if faults % k + 1 == k {
      assert faults + 1 == k * (turns + 1) + 0;
      Remainder(k, turns + 1, 0);
    } else {
      assert faults + 1 == k * turns + (faults % k + 1);
      Remainder(k, turns, faults % k + 1);
    }
  }

  /** What holds after `n` faithful requests. */
  ghost predicate QueueOnCourse(reqs: seq<int>, k: nat)
    requires k >= 1
  {
    && QueueAgrees(reqs, k) && Marked(Fifo(reqs, k), k)
    && Slots(reqs, k).ptr == Turn(Misses(reqs, k), k)
  }

  lemma MarkedStep(q: seq<int>, p: int, k: nat)
    requires k >= 1 && |q| <= k && Marked(q, k) && Faithful(q, k, p)
    ensures Marked(FifoStep(q, p, k), k)
  {
    var n := Newest(q + [p], k);
    assert forall x :: x in n ==> x in q + [p];
  }

  lemma FaithfulStep(reqs: seq<int>, k: nat, n: nat)
    requires k >= 1 && n < |reqs| && QueueOnCourse(reqs[..n], k) && FaithfulAt(reqs, k, n)
    ensures QueueOnCourse(reqs[..n + 1], k)
  {
    hide Turn, After;
    var s, q, p := Slots(reqs[..n], k), Fifo(reqs[..n], k), reqs[n];
    FifoShape(reqs[..n], k);
    OneMore(reqs, n, k);
    FaithfulRequest(s, q, p);
    MarkedStep(q, p, k);
    NextTurn(Misses(reqs[..n], k), k);
    hide Slots, Misses, Fifo, FifoFaults, FifoStep, HoldsQueue, Request;
  }

  lemma UnfaithfulStep(reqs: seq<int>, k: nat, n: nat)
    requires k >= 1 && n < |reqs| && QueueOnCourse(reqs[..n], k) && !FaithfulAt(reqs, k, n)
    ensures !QueueAgrees(reqs[..n + 1], k)
  {
    FifoShape(reqs[..n], k);
    OneMore(reqs, n, k);
    UnfaithfulRequest(Slots(reqs[..n], k), Fifo(reqs[..n], k), reqs[n]);
  }

  lemma NoRequests(reqs: seq<int>, k: nat)
    requires k >= 1
    ensures QueueOnCourse(reqs[..0], k)
  {
    assert reqs[..0] == [];
  }

  ghost function OnCourseAt(reqs: seq<int>, k: nat): nat -> bool
    requires k >= 1
  {
    n => 0 <= n <= |reqs| && QueueOnCourse(reqs[..n], k)
  }

  ghost function AgreesAt(reqs: seq<int>, k: nat): nat -> bool
    requires k >= 1
  {
    n => 0 <= n <= |reqs| && QueueAgrees(reqs[..n], k)
  }

  ghost function FaithfulBefore(reqs: seq<int>, k: nat): nat -> bool {
    n => 0 <= n < |reqs| && FaithfulAt(reqs, k, n)
  }

  lemma RunIsSteered(reqs: seq<int>, k: nat)
    requires k >= 1
    ensures Steered(OnCourseAt(reqs, k), AgreesAt(reqs, k), FaithfulBefore(reqs, k), |reqs|)
  {
    NoRequests(reqs, k);
    assert forall n: nat :: n <= |reqs| && QueueOnCourse(reqs[..n], k) ==> QueueAgrees(reqs[..n], k);
    hide QueueOnCourse, QueueAgrees, FaithfulAt;
    forall n: nat | n < |reqs| && QueueOnCourse(reqs[..n], k)
      ensures if FaithfulAt(reqs, k, n) then QueueOnCourse(reqs[..n + 1], k) else !QueueAgrees(reqs[..n + 1], k)
    {
      if FaithfulAt(reqs, k, n) {
        FaithfulStep(reqs, k, n);
      } else {
        UnfaithfulStep(reqs, k, n);
      }
    }
  }

  /** The simulator is the FIFO queue at every moment iff every request is faithful. */
  lemma FifoExactly(reqs: seq<int>, k: nat)
    requires k >= 1
    ensures (forall n :: 0 <= n <= |reqs| ==> QueueAgrees(reqs[..n], k)) <==> AllFaithful(reqs, k)
  {
    RunIsSteered(reqs, k);
    hide Steered, QueueOnCourse, QueueAgrees, FaithfulAt;
    AgreesExactly(OnCourseAt(reqs, k), AgreesAt(reqs, k), FaithfulBefore(reqs, k), |reqs|);
    assert forall n: nat :: n <= |reqs| ==> (AgreesAt(reqs, k)(n) <==> QueueAgrees(reqs[..n], k));
    assert forall n: nat :: n < |reqs| ==> (FaithfulBefore(reqs, k)(n) <==> FaithfulAt(reqs, k, n));
  }

  /** What the whole run leaves when every request is faithful. */
  lemma FaithfulRun(reqs: seq<int>, k: nat)
    requires k >= 1 && AllFaithful(reqs, k)
    ensures QueueOnCourse(reqs, k)
  {
    RunIsSteered(reqs, k);
    hide Steered, QueueOnCourse, FaithfulAt;
    StaysOnCourse(OnCourseAt(reqs, k), AgreesAt(reqs, k), FaithfulBefore(reqs, k), |reqs|, |reqs|);
    assert reqs[..|reqs|] == reqs;
  }

  lemma PagesAreFaithful(reqs: seq<int>, k: nat)
    requires k >= 1 && Pages(reqs)
    ensures AllFaithful(reqs, k)
  {
    forall n | 0 <= n < |reqs|
      ensures FaithfulAt(reqs, k, n)
    {
      FifoShape(reqs[..n], k);
    }
  }

  /** A first request for -1 counts as a hit. */
  lemma EmptyMarkerHits(k: nat)
    requires k >= 1
    ensures Misses([EMPTY], k) == 0 && FifoFaults([EMPTY], k) == 1
  {
    var reqs := [EMPTY];
    OneMore(reqs, 0, k);
    assert reqs[..0] == [] && reqs[..1] == reqs;
    assert Slots([], k).frames[0] == EMPTY;
  }

  /** The loop, and what it computes when no request is for -1. */
  method SimulateFifo(reqs: seq<int>, k: nat) returns (faults: nat, slots: seq<int>, ptr: nat)
    requires k >= 1
    ensures FifoState(slots, ptr) == Slots(reqs, k) && faults == Misses(reqs, k)
    ensures Pages(reqs) ==> HoldsQueue(FifoState(slots, ptr), Fifo(reqs, k)) && faults == FifoFaults(reqs, k)
    ensures Pages(reqs) ==> ptr == faults % k
  {
    var frames := new int[k](_ => EMPTY);
    ptr, faults := 0, 0;
    for step := 0 to |reqs|
      invariant FifoState(frames[..], ptr) == Slots(reqs[..step], k) && faults == Misses(reqs[..step], k)
    {
      var page := reqs[step];
      OneMore(reqs, step, k);
      var hit := FindPage(frames, page);
      if hit == -1 {
        faults := faults + 1;
        var slot := FindPage(frames, EMPTY);
        if slot != -1 {
          frames[slot] := page;
          AfterIsMod(slot, k);
          ptr := (slot + 1) % k;
        } else {
          frames[ptr] := page;
          AfterIsMod(ptr, k);
          ptr := (ptr + 1) % k;
        }
      }
    }
    slots := frames[..];
    assert reqs[..|reqs|] == reqs;
    if Pages(reqs) {
      PagesAreFaithful(reqs, k);
      FaithfulRun(reqs, k);
    }
  }
}
