/** Compaction keeps the processes and their order, moves none upward and leaves no gap. */
module Compaction {
  import opened Blocks
  import opened MemoryModel

  // ----- the total size of the blocks that start below an address

  lemma {:induction false} BelowSame(live: seq<Process>, a: int, b: int)
    requires a <= b
    requires forall j :: 0 <= j < |live| ==> !(a <= live[j].range.start < b)
    ensures Below(live, a) == Below(live, b)
  {
    if live != [] {
      BelowSame(live[..|live| - 1], a, b);
    }
  }

  lemma {:induction false} BelowAcross(live: seq<Process>, i: nat, a: int, b: int)
    requires i < |live| && a <= live[i].range.start < b
    requires forall j :: 0 <= j < |live| && j != i ==> !(a <= live[j].range.start < b)
    ensures Below(live, b) == Below(live, a) + live[i].range.size
  {
    var n := |live| - 1;
    if i == n {
      BelowSame(live[..n], a, b);
    } else {
      BelowAcross(live[..n], i, a, b);
    }
  }

  lemma {:induction false} BelowGrows(live: seq<Process>, a: int, b: int)
    requires a <= b && forall j :: 0 <= j < |live| ==> live[j].range.size >= 0
    ensures Below(live, a) <= Below(live, b)
  {
    if live != [] {
      BelowGrows(live[..|live| - 1], a, b);
    }
  }

  lemma {:induction false} BelowNone(live: seq<Process>, a: int)
    requires forall j :: 0 <= j < |live| ==> live[j].range.start >= a
    ensures Below(live, a) == 0
  {
    if live != [] {
      BelowNone(live[..|live| - 1], a);
    }
  }

  lemma {:induction false} BelowAll(live: seq<Process>, a: int)
    requires forall j :: 0 <= j < |live| ==> live[j].range.start < a
    ensures Below(live, a) == Total(Ranges(live))
  {
    if live != [] {
      var n := |live| - 1;
      BelowAll(live[..n], a);
      assert Ranges(live)[..n] == Ranges(live[..n]);
    }
  }

  /** The highest block that starts below `a`. */
  lemma {:induction false} Highest(live: seq<Process>, a: int) returns (i: nat)
    requires exists j :: 0 <= j < |live| && live[j].range.start < a
    ensures i < |live| && live[i].range.start < a
    ensures forall j :: 0 <= j < |live| && live[j].range.start < a ==> live[j].range.start <= live[i].range.start
  {
    var n := |live| - 1;
    if exists j :: 0 <= j < n && live[j].range.start < a {
      i := Highest(live[..n], a);
      if live[i].range.start < live[n].range.start < a {
        i := n;
      }
    } else {
      i := n;
    }
  }

  ghost predicate Disjoint(live: seq<Process>) {
    && (forall i :: 0 <= i < |live| ==> live[i].range.start >= 0 && live[i].range.size > 0)
    && (forall i, j :: 0 <= i < |live| && 0 <= j < |live| && i != j ==> Apart(live[i].range, live[j].range))
  }

  lemma LayoutDisjoint(live: seq<Process>, limit: int)
    requires Layout(Ranges(live), limit)
    ensures Disjoint(live)
  {
    var rs := Ranges(live);
    assert forall i :: 0 <= i < |live| ==> rs[i].Within(limit);
    forall i, j | 0 <= i < |live| && 0 <= j < |live| && i != j
      ensures Apart(live[i].range, live[j].range)
    {
      assert if i < j then Apart(rs[i], rs[j]) else Apart(rs[j], rs[i]);
    }
  }

  /** The blocks below the end of block `i` are those below its start and itself. */
  lemma BelowEnd(live: seq<Process>, i: nat)
    requires Disjoint(live) && i < |live|
    ensures Below(live, live[i].range.End()) == Below(live, live[i].range.start) + live[i].range.size
  {
    BelowAcross(live, i, live[i].range.start, live[i].range.End());
  }

  lemma BelowAtHighest(live: seq<Process>, a: int, i: nat)
    requires Disjoint(live) && i < |live| && live[i].range.start < a
    requires forall j :: 0 <= j < |live| && live[j].range.start < a ==> live[j].range.start <= live[i].range.start
    ensures Below(live, a) == Below(live, live[i].range.start) + live[i].range.size
  {
    forall j | 0 <= j < |live| && j != i
      ensures !(live[i].range.start <= live[j].range.start < a)
    {
      assert Apart(live[i].range, live[j].range);
    }
    BelowAcross(live, i, live[i].range.start, a);
  }

  /** No more fits below an address than the address itself: disjoint blocks that
      end at or below `a` have total size at most `a`. */
  lemma {:induction false} BelowBound(live: seq<Process>, a: int)
    requires Disjoint(live) && a >= 0
    requires forall j :: 0 <= j < |live| && live[j].range.start < a ==> live[j].range.End() <= a
    ensures 0 <= Below(live, a) <= a
    decreases a
  {
    if exists j :: 0 <= j < |live| && live[j].range.start < a {
      var i := Highest(live, a);
      BelowAtHighest(live, a, i);
      var s := live[i].range.start;
      forall j | 0 <= j < |live| && live[j].range.start < s
        ensures live[j].range.End() <= s
      {
        assert Apart(live[i].range, live[j].range);
      }
      BelowBound(live, s);
    } else {
      BelowNone(live, a);
    }
  }

  // ----- what compaction does to the live blocks

  lemma SlideDown(live: seq<Process>, i: nat)
    requires Disjoint(live) && i < |live|
    ensures 0 <= Slide(live)[i].range.start <= live[i].range.start
  {
    forall j | 0 <= j < |live| && live[j].range.start < live[i].range.start
      ensures live[j].range.End() <= live[i].range.start
    {
      assert Apart(live[i].range, live[j].range);
    }
    BelowBound(live, live[i].range.start);
  }

  lemma SlideKeepsOrder(live: seq<Process>, i: nat, j: nat)
    requires Disjoint(live) && i < |live| && j < |live| && live[i].range.start < live[j].range.start
    ensures Slide(live)[i].range.End() <= Slide(live)[j].range.start
  {
    assert Apart(live[i].range, live[j].range);
    BelowEnd(live, i);
    BelowGrows(live, live[i].range.End(), live[j].range.start);
  }

  /** Every address below the total of the blocks under `a` ends up in one of them. */
  lemma {:induction false} SlideCovers(live: seq<Process>, a: int, x: int) returns (i: nat)
    requires Disjoint(live) && 0 <= x < Below(live, a)
    ensures i < |live| && live[i].range.start < a && Slide(live)[i].range.Has(x)
    decreases a
  {
    if exists j :: 0 <= j < |live| && live[j].range.start < a {
      i := Highest(live, a);
      BelowAtHighest(live, a, i);
      if x < Below(live, live[i].range.start) {
        i := SlideCovers(live, live[i].range.start, x);
      }
    } else {
      BelowNone(live, a);
      assert false;
    }
  }

  /** The main statement about compaction of the live list. */
  lemma CompactionKeepsMeaning(live: seq<Process>, limit: int)
    requires Layout(Ranges(live), limit)
    ensures |Slide(live)| == |live|
    ensures forall i :: 0 <= i < |live| ==>
      && Slide(live)[i].pid == live[i].pid
      && Slide(live)[i].range.size == live[i].range.size
      && 0 <= Slide(live)[i].range.start <= live[i].range.start
    ensures forall i, j :: 0 <= i < |live| && 0 <= j < |live| ==>
      (live[i].range.start < live[j].range.start <==> Slide(live)[i].range.start < Slide(live)[j].range.start)
    ensures forall x :: Covers(Ranges(Slide(live)), x) <==> 0 <= x < Total(Ranges(live))
    ensures Layout(Ranges(Slide(live)), Total(Ranges(live)))
    ensures Total(Ranges(Slide(live))) == Total(Ranges(live))
  {
    hide Below, Total, Slide;
    LayoutDisjoint(live, limit);
    var after, used := Slide(live), Total(Ranges(live));
    forall i | 0 <= i < |live|
      ensures 0 <= after[i].range.start <= live[i].range.start && after[i].range.End() <= used
    {
      SlideDown(live, i);
      SlideInTotal(live, limit, i);
    }
    forall i, j | 0 <= i < |live| && 0 <= j < |live|
      ensures live[i].range.start < live[j].range.start ==> after[i].range.End() <= after[j].range.start
    {
      if live[i].range.start < live[j].range.start {
        SlideKeepsOrder(live, i, j);
      }
    }
    forall i, j | 0 <= i < |live| && 0 <= j < |live|
      ensures live[i].range.start < live[j].range.start || live[j].range.start < live[i].range.start || i == j
    {
      assert i != j ==> Apart(live[i].range, live[j].range);
    }
    forall x
      ensures Covers(Ranges(after), x) <==> 0 <= x < used
    {
      if 0 <= x < used {
        BelowAll(live, limit + 1) by { RangesStartBelow(live, limit); }
        var i := SlideCovers(live, limit + 1, x);
        assert Ranges(after)[i].Has(x);
      }
    }
    SlideTotal(live);
  }

  lemma RangesStartBelow(live: seq<Process>, limit: int)
    requires Layout(Ranges(live), limit)
    ensures forall j :: 0 <= j < |live| ==> live[j].range.start < limit + 1
  {
    assert forall j :: 0 <= j < |live| ==> Ranges(live)[j].Within(limit);
  }

  lemma SlideInTotal(live: seq<Process>, limit: int, i: nat)
    requires Layout(Ranges(live), limit) && i < |live|
    ensures Slide(live)[i].range.End() <= Total(Ranges(live))
  {
    LayoutDisjoint(live, limit);
    BelowEnd(live, i);
    RangesStartBelow(live, limit);
    assert Ranges(live)[i].Within(limit);
    BelowGrows(live, live[i].range.End(), limit + 1);
    BelowAll(live, limit + 1);
  }

  lemma {:induction false} SameSizesSameTotal(a: seq<Block>, b: seq<Block>)
    requires |a| == |b| && forall i :: 0 <= i < |a| ==> a[i].size == b[i].size
    ensures Total(a) == Total(b)
  {
    if a != [] {
      SameSizesSameTotal(a[..|a| - 1], b[..|b| - 1]);
    }
  }

  lemma SlideTotal(live: seq<Process>)
    ensures Total(Ranges(Slide(live))) == Total(Ranges(live))
  {
    SameSizesSameTotal(Ranges(Slide(live)), Ranges(live));
  }
}
