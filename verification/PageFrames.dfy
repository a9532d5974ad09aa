/** Frame slots, in which -1 marks an empty one; a page may carry that number too. */
module PageFrames {
  import opened Sequences
  import opened Paging

  const EMPTY := -1

  /** The requests name pages other than -1. */
  ghost predicate Pages(reqs: seq<int>) {
    forall i :: 0 <= i < |reqs| ==> reqs[i] != EMPTY
  }

  /** A request that the slots cannot misread: -1 is requested only when no slot is
      empty, and while page -1 is resident a page is loaded only in its place. */
  predicate Faithful(resident: seq<int>, k: nat, p: int) {
    && (p == EMPTY ==> |resident| == k)
    && (p !in resident && EMPTY in resident ==> resident[0] == EMPTY)
  }

  /** Page -1 is resident only when no slot is empty. */
  ghost predicate Marked(resident: seq<int>, k: nat) {
    EMPTY in resident ==> |resident| == k
  }

  method FindPage(frames: array<int>, p: int) returns (index: int)
    ensures index == if p in frames[..] then IndexOf(frames[..], p) else -1
  {
    index := -1;
    for i := 0 to frames.Length
      invariant index == -1 && p !in frames[..i]
    {
      if frames[i] == p {
        index := i;
        IndexIs(frames[..], p, i);
        break;
      }
    }
  }

  lemma IndexIs(s: seq<int>, p: int, i: nat)
    requires i < |s| && s[i] == p && p !in s[..i]
    ensures IndexOf(s, p) == i
  {
    assert forall j :: 0 <= j < i ==> s[..i][j] == s[j];
  }

  /** In a list without repetition a page has one index. */
  lemma OnlyIndex(s: seq<int>, i: nat)
    requires Distinct(s) && i < |s|
    ensures IndexOf(s, s[i]) == i
  {}

  // ----- a run that stays on course as long as its requests are faithful

  /** Being on course means to agree with the specification and more; a faithful request
      keeps on course, and any other one ends the agreement. */
  ghost predicate Steered(onCourse: nat -> bool, agrees: nat -> bool, faithful: nat -> bool, n: nat) {
    && onCourse(0)
    && (forall i: nat :: i <= n && onCourse(i) ==> agrees(i))
    && (forall i: nat :: i < n && onCourse(i) ==> if faithful(i) then onCourse(i + 1) else !agrees(i + 1))
  }

  lemma {:induction false} StaysOnCourse(onCourse: nat -> bool, agrees: nat -> bool, faithful: nat -> bool, n: nat, m: nat)
    requires Steered(onCourse, agrees, faithful, n) && m <= n && forall i: nat :: i < m ==> faithful(i)
    ensures onCourse(m)
  {
    if m > 0 {
      StaysOnCourse(onCourse, agrees, faithful, n, m - 1);
    }
  }

  lemma {:induction false} AgreedSoFar(onCourse: nat -> bool, agrees: nat -> bool, faithful: nat -> bool, n: nat, m: nat)
    requires Steered(onCourse, agrees, faithful, n) && m <= n && forall i: nat :: i <= n ==> agrees(i)
    ensures onCourse(m) && forall i: nat :: i < m ==> faithful(i)
  {
    if m > 0 {
      AgreedSoFar(onCourse, agrees, faithful, n, m - 1);
      assert agrees(m);
    }
  }

  /** Then the run agrees at every moment iff all its requests are faithful. */
  lemma AgreesExactly(onCourse: nat -> bool, agrees: nat -> bool, faithful: nat -> bool, n: nat)
    requires Steered(onCourse, agrees, faithful, n)
    ensures (forall i: nat :: i <= n ==> agrees(i)) <==> (forall i: nat :: i < n ==> faithful(i))
  {
    if forall i: nat :: i < n ==> faithful(i) {
      forall m: nat | m <= n
        ensures agrees(m)
      {
        StaysOnCourse(onCourse, agrees, faithful, n, m);
      }
    }
    if forall i: nat :: i <= n ==> agrees(i) {
      AgreedSoFar(onCourse, agrees, faithful, n, n);
    }
  }
}
