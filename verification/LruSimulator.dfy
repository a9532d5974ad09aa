/** The LRU simulator on every input, and exactly when it is the recency stack. */
module LruSimulator {
  import opened Sequences
  import opened Paging
  import opened PageFrames

  datatype LruState = LruState(frames: seq<int>, stamps: seq<int>) {
    predicate Sized(k: nat) { |frames| == |stamps| == k }
  }

  /** The first slot with a smallest stamp. */
  function Oldest(stamps: seq<int>): (v: nat)
    requires stamps != []
    ensures v < |stamps|
    ensures forall i :: 0 <= i < |stamps| ==> stamps[v] <= stamps[i]
    ensures forall i :: 0 <= i < v ==> stamps[v] < stamps[i]
  {
    if |stamps| == 1 then 0
    else
      var v := Oldest(Init(stamps));
      if Last(stamps) < stamps[v] then |stamps| - 1 else v
  }

  /** One request at time `now`: a page in no slot goes to the first slot marked empty,
      or else to the first with a smallest stamp; its slot is stamped. */
  function Request(s: LruState, p: int, now: nat): (r: LruState)
    requires s.Sized(|s.frames|) && s.frames != []
    ensures r.Sized(|s.frames|)
  {
    var i := if p in s.frames then IndexOf(s.frames, p)
             else if EMPTY in s.frames then IndexOf(s.frames, EMPTY) else Oldest(s.stamps);
    LruState(s.frames[i := p], s.stamps[i := now])
  }

  function Slots(reqs: seq<int>, k: nat): (s: LruState)
    requires k >= 1
    ensures s.Sized(k)
  {
    if reqs == [] then LruState(seq(k, _ => EMPTY), seq(k, _ => -1))
    else Request(Slots(Init(reqs), k), Last(reqs), |reqs|)
  }

  function Misses(reqs: seq<int>, k: nat): nat
    requires k >= 1
  {
    if reqs == [] then 0
    else Misses(Init(reqs), k) + if Last(reqs) in Slots(Init(reqs), k).frames then 0 else 1
  }

  /** Slots `[0..|q|)` hold the pages of the recency stack in some order, each stamped
      with the time of its last request. */
  ghost predicate HoldsStack(s: LruState, reqs: seq<int>, q: seq<int>) {
    && s.Sized(|s.frames|) && |q| <= |s.frames|
    && Distinct(s.frames[..|q|])
    && (forall x :: x in q <==> x in s.frames[..|q|])
    && (forall i :: 0 <= i < |q| ==> s.stamps[i] == LastUse(reqs, s.frames[i]))
    && (forall i :: |q| <= i < |s.frames| ==> s.frames[i] == EMPTY)
  }

  /** The stamps of occupied slots are distinct times that have already passed. */
  lemma StampsAreTimes(s: LruState, reqs: seq<int>, q: seq<int>)
    requires HoldsStack(s, reqs, q) && forall x :: x in q ==> x in reqs
    ensures forall i :: 0 <= i < |q| ==> 1 <= s.stamps[i] <= |reqs| && reqs[s.stamps[i] - 1] == s.frames[i]
    ensures forall i, j :: 0 <= i < j < |q| ==> s.stamps[i] != s.stamps[j]
  {
    var used := s.frames[..|q|];
    assert forall i :: 0 <= i < |q| ==> s.frames[i] == used[i] && used[i] in q;
  }

  // ----- one request

  lemma Members(s: LruState, reqs: seq<int>, q: seq<int>, p: int)
    requires HoldsStack(s, reqs, q)
    ensures p in s.frames <==> p in q || (p == EMPTY && |q| < |s.frames|)
  {
    assert s.frames == s.frames[..|q|] + s.frames[|q|..];
    if |q| < |s.frames| {
      assert s.frames[|q|] == EMPTY;
    }
  }

  lemma FirstEmpty(s: LruState, reqs: seq<int>, q: seq<int>)
    requires HoldsStack(s, reqs, q) && |q| < |s.frames| && EMPTY !in q
    ensures EMPTY in s.frames && IndexOf(s.frames, EMPTY) == |q|
  {
    assert s.frames[|q|] == EMPTY;
    IndexIs(s.frames, EMPTY, |q|);
  }

  lemma StepKeeps(q: seq<int>, p: int, k: nat)
    requires Distinct(q) && p in q && |q| <= k
    ensures |LruStep(q, p, k)| == |q|
    ensures forall x :: x in LruStep(q, p, k) <==> x in q
  {
    WithoutElems(q, p);
  }

  /** A hit moves the page to the end of the stack and stamps its slot. */
  lemma Touch(s: LruState, reqs: seq<int>, q: seq<int>, q': seq<int>, h: nat)
    requires reqs != [] && HoldsStack(s, Init(reqs), q)
    requires h < |q| && s.frames[h] == Last(reqs)
    requires |q'| == |q| && forall x :: x in q' <==> x in q
    ensures HoldsStack(LruState(s.frames[h := Last(reqs)], s.stamps[h := |reqs|]), reqs, q')
  {
    var used := s.frames[..|q|];
    assert s.frames[h := Last(reqs)] == s.frames;
    forall i | 0 <= i < |q| && i != h
      ensures s.stamps[i] == LastUse(reqs, s.frames[i])
    {
      assert used[i] != used[h];
    }
  }

  lemma Fill(s: LruState, reqs: seq<int>, q: seq<int>)
    requires reqs != [] && |q| < |s.frames| && Last(reqs) !in q
    requires HoldsStack(s, Init(reqs), q)
    ensures HoldsStack(LruState(s.frames[|q| := Last(reqs)], s.stamps[|q| := |reqs|]), reqs,
                       LruStep(q, Last(reqs), |s.frames|))
  {
    var p := Last(reqs);
    assert LruStep(q, p, |s.frames|) == q + [p];
    assert s.frames[|q| := p][..|q| + 1] == s.frames[..|q|] + [p];
    assert forall j :: 0 <= j < |q| ==> s.frames[..|q|][j] in q;
  }

  /** The first slot with a smallest stamp holds the least recently used page. */
  lemma OldestIsVictim(s: LruState, reqs: seq<int>, q: seq<int>)
    requires HoldsStack(s, reqs, q) && |q| == |s.frames| && UseOrdered(reqs, q) && q != []
    ensures s.frames[Oldest(s.stamps)] == q[0]
  {
    var v := Oldest(s.stamps);
    assert s.frames[..|q|] == s.frames;
    assert q[0] in q && s.frames[v] in s.frames;
    var i :| 0 <= i < |s.frames| && s.frames[i] == q[0];
    var j :| 0 <= j < |q| && q[j] == s.frames[v];
    assert LastUse(reqs, q[j]) <= LastUse(reqs, q[0]);
  }

  /** With all slots full the new page takes the slot of the least recently used one. */
  lemma Replace(s: LruState, reqs: seq<int>, q: seq<int>, v: nat)
    requires reqs != [] && |q| == |s.frames| && Last(reqs) !in q && Distinct(q)
    requires HoldsStack(s, Init(reqs), q)
    requires v < |s.frames| && s.frames[v] == q[0]
    ensures HoldsStack(LruState(s.frames[v := Last(reqs)], s.stamps[v := |reqs|]), reqs,
                       LruStep(q, Last(reqs), |s.frames|))
  {
    var p := Last(reqs);
    var next, q' := s.frames[v := p], q[1..] + [p];
    assert LruStep(q, p, |s.frames|) == q';
    assert s.frames[..|q|] == s.frames && next[..|q'|] == next;
    assert p !in s.frames;
    ReplacedMembers(s.frames, q, p, v);
  }

  lemma ReplacedMembers(frames: seq<int>, q: seq<int>, p: int, v: nat)
    requires |q| == |frames| && v < |frames| && frames[v] == q[0]
    requires Distinct(frames) && Distinct(q) && (forall x :: x in q <==> x in frames) && p !in q
    ensures forall x :: x in q[1..] + [p] <==> x in frames[v := p]
  {
    var next, q' := frames[v := p], q[1..] + [p];
    forall x | x in q'
      ensures x in next
    {
      if x == p {
        assert next[v] == p;
      } else {
        var j :| 1 <= j < |q| && q[j] == x;
        assert x in q && x != q[0];
        var i :| 0 <= i < |frames| && frames[i] == x;
        assert next[i] == x;
      }
    }
    forall x | x in next
      ensures x in q'
    {
      if x == p {
        assert q'[|q| - 1] == p;
      } else {
        var i :| 0 <= i < |frames| && i != v && frames[i] == x;
        assert x in frames;
        var j :| 0 <= j < |q| && q[j] == x;
        assert q'[j - 1] == x;
      }
    }
  }

  lemma HitSlot(s: LruState, reqs: seq<int>, q: seq<int>, p: int, k: nat)
    requires HoldsStack(s, reqs, q) && |s.frames| == k && p in q && Marked(q, k)
    ensures p in s.frames && IndexOf(s.frames, p) < |q|
  {
    Members(s, reqs, q, p);
    assert p != EMPTY || |q| == k;
  }

  lemma VictimSlot(s: LruState, reqs: seq<int>, q: seq<int>)
    requires HoldsStack(s, reqs, q) && |q| == |s.frames| && UseOrdered(reqs, q) && q != []
    requires EMPTY in q ==> q[0] == EMPTY
    ensures var v := if EMPTY in s.frames then IndexOf(s.frames, EMPTY) else Oldest(s.stamps);
      s.frames[v] == q[0]
  {
    Members(s, reqs, q, EMPTY);
    if EMPTY !in s.frames {
      OldestIsVictim(s, reqs, q);
    }
  }

  /** A faithful request is one step of the stack. */
  lemma FaithfulRequest(s: LruState, reqs: seq<int>, q: seq<int>)
    requires reqs != [] && HoldsStack(s, Init(reqs), q) && s.frames != []
    requires Distinct(q) && UseOrdered(Init(reqs), q) && Marked(q, |s.frames|)
    requires Faithful(q, |s.frames|, Last(reqs))
    ensures Last(reqs) in s.frames <==> Last(reqs) in q
    ensures HoldsStack(Request(s, Last(reqs), |reqs|), reqs, LruStep(q, Last(reqs), |s.frames|))
  {
    var before, p, k := Init(reqs), Last(reqs), |s.frames|;
    Members(s, before, q, p);
    if p in q {
      HitSlot(s, before, q, p, k);
      StepKeeps(q, p, k);
      Touch(s, reqs, q, LruStep(q, p, k), IndexOf(s.frames, p));
    } else if |q| < k {
      FirstEmpty(s, before, q);
      Fill(s, reqs, q);
    } else {
      VictimSlot(s, before, q);
      Replace(s, reqs, q, if EMPTY in s.frames then IndexOf(s.frames, EMPTY) else Oldest(s.stamps));
    }
  }

  lemma EmptyStays(q: seq<int>, p: int, k: nat)
    requires |q| == k && p !in q && EMPTY in q && q[0] != EMPTY
    ensures EMPTY in LruStep(q, p, k)
  {
    var j :| 0 <= j < |q| && q[j] == EMPTY;
    assert LruStep(q, p, k) == q[1..] + [p];
    assert LruStep(q, p, k)[j - 1] == EMPTY;
  }

  /** Any other request is either counted wrongly or puts the page in a wrong slot. */
  lemma UnfaithfulRequest(s: LruState, reqs: seq<int>, q: seq<int>)
    requires reqs != [] && HoldsStack(s, Init(reqs), q) && s.frames != []
    requires Distinct(q) && Marked(q, |s.frames|)
    requires !Faithful(q, |s.frames|, Last(reqs))
    ensures (Last(reqs) in s.frames) == (Last(reqs) in q) ==>
      !HoldsStack(Request(s, Last(reqs), |reqs|), reqs, LruStep(q, Last(reqs), |s.frames|))
  {
    var before, p, k := Init(reqs), Last(reqs), |s.frames|;
    Members(s, before, q, p);
    if (p in s.frames) == (p in q) {
      // page -1 is resident, not the victim, and loses its slot to `p`
      Members(s, before, q, EMPTY);
      assert s.frames[..|q|] == s.frames;
      var next, q' := Request(s, p, |reqs|), LruStep(q, p, k);
      assert EMPTY !in next.frames;
      EmptyStays(q, p, k);
      if HoldsStack(next, reqs, q') {
        Members(next, reqs, q', EMPTY);
      }
    }
  }

  // ----- all requests

  /** Slots, stamps and fault count are those of the stack. */
  ghost predicate StackAgrees(reqs: seq<int>, k: nat)
    requires k >= 1
  {
    HoldsStack(Slots(reqs, k), reqs, Lru(reqs, k)) && Misses(reqs, k) == LruFaults(reqs, k)
  }

  ghost predicate FaithfulAt(reqs: seq<int>, k: nat, n: nat)
    requires n < |reqs|
  {
    Faithful(Lru(reqs[..n], k), k, reqs[n])
  }

  ghost predicate AllFaithful(reqs: seq<int>, k: nat) {
    forall n :: 0 <= n < |reqs| ==> FaithfulAt(reqs, k, n)
  }

  lemma OneMore(reqs: seq<int>, n: nat, k: nat)
    requires k >= 1 && n < |reqs|
    ensures Init(reqs[..n + 1]) == reqs[..n] && Last(reqs[..n + 1]) == reqs[n]
    ensures Slots(reqs[..n + 1], k) == Request(Slots(reqs[..n], k), reqs[n], n + 1)
    ensures Misses(reqs[..n + 1], k) == Misses(reqs[..n], k) + if reqs[n] in Slots(reqs[..n], k).frames then 0 else 1
    ensures Lru(reqs[..n + 1], k) == LruStep(Lru(reqs[..n], k), reqs[n], k)
    ensures LruFaults(reqs[..n + 1], k) == LruFaults(reqs[..n], k) + if reqs[n] in Lru(reqs[..n], k) then 0 else 1
  {
    assert Init(reqs[..n + 1]) == reqs[..n];
  }

  lemma StackFacts(reqs: seq<int>, k: nat)
    requires k >= 1
    ensures Distinct(Lru(reqs, k)) && |Lru(reqs, k)| <= k && UseOrdered(reqs, Lru(reqs, k))
    ensures forall x :: x in Lru(reqs, k) ==> x in reqs
  {
    LruShape(reqs, k);
    HistoryIsRecencyOrder(reqs);
  }

  /** What holds after faithful requests. */
  ghost predicate StackOnCourse(reqs: seq<int>, k: nat)
    requires k >= 1
  {
    StackAgrees(reqs, k) && Marked(Lru(reqs, k), k)
  }

  lemma MarkedStep(q: seq<int>, p: int, k: nat)
    requires k >= 1 && |q| <= k && Distinct(q) && Marked(q, k) && Faithful(q, k, p)
    ensures Marked(LruStep(q, p, k), k)
  {
    WithoutElems(q, p);
    var n := Newest(Without(q, p) + [p], k);
    assert forall x :: x in n ==> x in Without(q, p) + [p];
  }

  lemma FaithfulStep(reqs: seq<int>, k: nat, n: nat)
    requires k >= 1 && n < |reqs| && StackOnCourse(reqs[..n], k) && FaithfulAt(reqs, k, n)
    ensures StackOnCourse(reqs[..n + 1], k)
  {
    StackFacts(reqs[..n], k);
    OneMore(reqs, n, k);
    FaithfulRequest(Slots(reqs[..n], k), reqs[..n + 1], Lru(reqs[..n], k));
    MarkedStep(Lru(reqs[..n], k), reqs[n], k);
    hide Slots, Misses, Lru, LruFaults, LruStep, HoldsStack, Request;
  }

  lemma UnfaithfulStep(reqs: seq<int>, k: nat, n: nat)
    requires k >= 1 && n < |reqs| && StackOnCourse(reqs[..n], k) && !FaithfulAt(reqs, k, n)
    ensures !StackAgrees(reqs[..n + 1], k)
  {
    StackFacts(reqs[..n], k);
    OneMore(reqs, n, k);
    UnfaithfulRequest(Slots(reqs[..n], k), reqs[..n + 1], Lru(reqs[..n], k));
    hide Slots, Misses, Lru, LruFaults, LruStep, HoldsStack, Request;
  }

  lemma NoRequests(reqs: seq<int>, k: nat)
    requires k >= 1
    ensures StackOnCourse(reqs[..0], k)
  {
    assert reqs[..0] == [];
  }

  ghost function OnCourseAt(reqs: seq<int>, k: nat): nat -> bool
    requires k >= 1
  {
    n => 0 <= n <= |reqs| && StackOnCourse(reqs[..n], k)
  }

  ghost function AgreesAt(reqs: seq<int>, k: nat): nat -> bool
    requires k >= 1
  {
    n => 0 <= n <= |reqs| && StackAgrees(reqs[..n], k)
  }

  ghost function FaithfulBefore(reqs: seq<int>, k: nat): nat -> bool {
    n => 0 <= n < |reqs| && FaithfulAt(reqs, k, n)
  }

  lemma RunIsSteered(reqs: seq<int>, k: nat)
    requires k >= 1
    ensures Steered(OnCourseAt(reqs, k), AgreesAt(reqs, k), FaithfulBefore(reqs, k), |reqs|)
  {
    NoRequests(reqs, k);
    assert forall n: nat :: n <= |reqs| && StackOnCourse(reqs[..n], k) ==> StackAgrees(reqs[..n], k);
    hide StackOnCourse, StackAgrees, FaithfulAt;
    forall n: nat | n < |reqs| && StackOnCourse(reqs[..n], k)
      ensures if FaithfulAt(reqs, k, n) then StackOnCourse(reqs[..n + 1], k) else !StackAgrees(reqs[..n + 1], k)
    {
      if FaithfulAt(reqs, k, n) {
        FaithfulStep(reqs, k, n);
      } else {
        UnfaithfulStep(reqs, k, n);
      }
    }
  }

  /** The simulator is the recency stack at every moment iff every request is faithful. */
  lemma LruExactly(reqs: seq<int>, k: nat)
    requires k >= 1
    ensures (forall n :: 0 <= n <= |reqs| ==> StackAgrees(reqs[..n], k)) <==> AllFaithful(reqs, k)
  {
    RunIsSteered(reqs, k);
    hide Steered, StackOnCourse, StackAgrees, FaithfulAt;
    AgreesExactly(OnCourseAt(reqs, k), AgreesAt(reqs, k), FaithfulBefore(reqs, k), |reqs|);
    assert forall n: nat :: n <= |reqs| ==> (AgreesAt(reqs, k)(n) <==> StackAgrees(reqs[..n], k));
    assert forall n: nat :: n < |reqs| ==> (FaithfulBefore(reqs, k)(n) <==> FaithfulAt(reqs, k, n));
  }

  /** What the whole run leaves when every request is faithful. */
  lemma FaithfulRun(reqs: seq<int>, k: nat)
    requires k >= 1 && AllFaithful(reqs, k)
    ensures StackOnCourse(reqs, k)
  {
    RunIsSteered(reqs, k);
    hide Steered, StackOnCourse, FaithfulAt;
    StaysOnCourse(OnCourseAt(reqs, k), AgreesAt(reqs, k), FaithfulBefore(reqs, k), |reqs|, |reqs|);
    assert reqs[..|reqs|] == reqs;
  }

  lemma PagesAreFaithful(reqs: seq<int>, k: nat)
    requires k >= 1 && Pages(reqs)
    ensures AllFaithful(reqs, k)
  {
    forall n | 0 <= n < |reqs|
      ensures FaithfulAt(reqs, k, n)
    {
      StackFacts(reqs[..n], k);
    }
  }

  /** A first request for -1 counts as a hit. */
  lemma EmptyMarkerHits(k: nat)
    requires k >= 1
    ensures Misses([EMPTY], k) == 0 && LruFaults([EMPTY], k) == 1
  {
    var reqs := [EMPTY];
    OneMore(reqs, 0, k);
    assert reqs[..0] == [] && reqs[..1] == reqs;
    assert Slots([], k).frames[0] == EMPTY;
  }

  // ----- the loops

  method SmallestStamp(lastUsed: array<int>) returns (lru: nat)
    requires lastUsed.Length >= 1
    ensures lru == Oldest(lastUsed[..])
  {
    lru := 0;
    for i := 1 to lastUsed.Length
      invariant lru == Oldest(lastUsed[..i])
    {
      assert Init(lastUsed[..i + 1]) == lastUsed[..i];
      if lastUsed[i] < lastUsed[lru] {
        lru := i;
      }
    }
    assert lastUsed[..lastUsed.Length] == lastUsed[..];
  }

  /** One pass of the simulation loop. */
  method RequestPage(frames: array<int>, lastUsed: array<int>, timeCounter: nat, page: int) returns (hit: bool)
    requires frames != lastUsed && frames.Length == lastUsed.Length >= 1
    modifies frames, lastUsed
    ensures hit <==> page in old(frames[..])
    ensures LruState(frames[..], lastUsed[..]) == Request(LruState(old(frames[..]), old(lastUsed[..])), page, timeCounter)
  {
    var slot := FindPage(frames, page);
    hit := slot != -1;
    if hit {
      assert frames[..][slot := page] == frames[..];
      lastUsed[slot] := timeCounter;
      return;
    }
    slot := FindPage(frames, EMPTY);
    if slot == -1 {
      slot := SmallestStamp(lastUsed);
    }
    frames[slot] := page;
    lastUsed[slot] := timeCounter;
  }

  /** The loop, and what it computes when no request is for -1. */
  method SimulateLru(reqs: seq<int>, k: nat) returns (faults: nat, slots: seq<int>, stamps: seq<int>)
    requires k >= 1
    ensures LruState(slots, stamps) == Slots(reqs, k) && faults == Misses(reqs, k)
    ensures Pages(reqs) ==> HoldsStack(LruState(slots, stamps), reqs, Lru(reqs, k)) && faults == LruFaults(reqs, k)
  {
    var frames := new int[k](_ => EMPTY);
    var lastUsed := new int[k](_ => -1);
    var timeCounter := 0;
    faults := 0;
    for step := 0 to |reqs|
      invariant timeCounter == step
      invariant LruState(frames[..], lastUsed[..]) == Slots(reqs[..step], k) && faults == Misses(reqs[..step], k)
    {
      timeCounter := timeCounter + 1;
      OneMore(reqs, step, k);
      var hit := RequestPage(frames, lastUsed, timeCounter, reqs[step]);
      if !hit {
        faults := faults + 1;
      }
    }
    slots, stamps := frames[..], lastUsed[..];
    assert reqs[..|reqs|] == reqs;
    if Pages(reqs) {
      PagesAreFaithful(reqs, k);
      FaithfulRun(reqs, k);
    }
  }
}
