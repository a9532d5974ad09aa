/** Address ranges and lists of them. */
module Blocks {
  import opened Sequences
  import opened Sorting

  datatype Block = Block(start: int, size: int) {
    function End(): int { start + size }

    ghost predicate Has(a: int) { start <= a < End() }

    ghost predicate Within(limit: int) { 0 <= start && size > 0 && End() <= limit }
  }

  ghost predicate Apart(a: Block, b: Block) {
    a.End() <= b.start || b.End() <= a.start
  }

  /** Non-empty ranges inside `[0, limit)`, no two of which overlap. */
  ghost predicate Layout(bs: seq<Block>, limit: int) {
    && (forall i :: 0 <= i < |bs| ==> bs[i].Within(limit))
    && (forall i, j :: 0 <= i < j < |bs| ==> Apart(bs[i], bs[j]))
  }

  ghost predicate Covers(bs: seq<Block>, a: int) {
    exists i :: 0 <= i < |bs| && bs[i].Has(a)
  }

  /** No block ends where another one begins. */
  ghost predicate Coalesced(bs: seq<Block>) {
    forall i, j :: 0 <= i < |bs| && 0 <= j < |bs| ==> bs[i].End() != bs[j].start
  }

  function Total(bs: seq<Block>): int {
    if bs == [] then 0 else Total(bs[..|bs| - 1]) + bs[|bs| - 1].size
  }

  // ----- totals

  lemma {:induction false} TotalConcat(a: seq<Block>, b: seq<Block>)
    ensures Total(a + b) == Total(a) + Total(b)
  {
    if b == [] {
      assert a + b == a;
    } else {
      var n := |b| - 1;
      TotalConcat(a, b[..n]);
      assert (a + b)[..|a + b| - 1] == a + b[..n];
    }
  }

  lemma TotalOne(b: Block)
    ensures Total([b]) == b.size
  {
    assert [b][..0] == [];
  }

  lemma TotalMiddle(a: seq<Block>, b: Block, c: seq<Block>)
    ensures Total(a + [b] + c) == Total(a + c) + b.size
  {
    hide Total;
    TotalConcat(a + [b], c);
    TotalConcat(a, [b]);
    TotalConcat(a, c);
    TotalOne(b);
  }

  lemma TotalSplit(bs: seq<Block>, i: nat)
    requires i < |bs|
    ensures Total(bs) == Total(bs[..i] + bs[i + 1..]) + bs[i].size
  {
    hide Total;
    TakenApart(bs, i);
    TotalMiddle(bs[..i], bs[i], bs[i + 1..]);
  }

  lemma TotalUpdate(bs: seq<Block>, i: nat, b: Block)
    requires i < |bs|
    ensures Total(bs[i := b]) == Total(bs) - bs[i].size + b.size
  {
    hide Total;
    var next := bs[i := b];
    TotalSplit(bs, i);
    TotalSplit(next, i);
    assert next[..i] + next[i + 1..] == bs[..i] + bs[i + 1..];
  }

  lemma {:induction false} TotalPermute(a: seq<Block>, b: seq<Block>)
    requires multiset(a) == multiset(b)
    ensures Total(a) == Total(b)
  {
    SameMembers(a, b);
    if a != [] {
      var n := |a| - 1;
      assert a[n] in b;
      var i :| 0 <= i < |b| && b[i] == a[n];
      var rest := b[..i] + b[i + 1..];
      WithoutOne(a, n);
      WithoutOne(b, i);
      assert a[..n] + a[n + 1..] == a[..n];
      TotalPermute(a[..n], rest);
      TotalSplit(b, i);
    }
  }

  lemma {:induction false} TotalNonNegative(bs: seq<Block>)
    requires forall i :: 0 <= i < |bs| ==> bs[i].size >= 0
    ensures Total(bs) >= 0
    ensures forall i :: 0 <= i < |bs| ==> bs[i].size <= Total(bs)
  {
    if bs != [] {
      TotalNonNegative(bs[..|bs| - 1]);
    }
  }

  lemma CoverConcat(a: seq<Block>, b: seq<Block>)
    ensures forall x :: Covers(a + b, x) <==> Covers(a, x) || Covers(b, x)
  {
    var c := a + b;
    forall x
      ensures Covers(c, x) <==> Covers(a, x) || Covers(b, x)
    {
      if Covers(a, x) {
        var i :| 0 <= i < |a| && a[i].Has(x);
        assert c[i].Has(x);
      }
      if Covers(b, x) {
        var i :| 0 <= i < |b| && b[i].Has(x);
        assert c[|a| + i].Has(x);
      }
    }
  }

  // ----- reordering

  lemma LayoutDistinct(bs: seq<Block>, limit: int)
    requires Layout(bs, limit)
    ensures Distinct(bs)
  {
    forall i, j | 0 <= i < j < |bs|
      ensures bs[i] != bs[j]
    {
      assert Apart(bs[i], bs[j]) && bs[i].Within(limit);
    }
  }

  lemma LayoutPermute(a: seq<Block>, b: seq<Block>, limit: int)
    requires multiset(a) == multiset(b) && Layout(a, limit)
    ensures Layout(b, limit)
    ensures Coalesced(a) ==> Coalesced(b)
    ensures forall x :: Covers(a, x) <==> Covers(b, x)
  {
    SameMembers(a, b);
    LayoutDistinct(a, limit);
    DistinctPermute(a, b);
    assert forall i :: 0 <= i < |b| ==> b[i] in a;
    assert forall i :: 0 <= i < |a| ==> a[i] in b;
    forall i, j | 0 <= i < j < |b|
      ensures Apart(b[i], b[j])
    {
      var i' :| 0 <= i' < |a| && a[i'] == b[i];
      var j' :| 0 <= j' < |a| && a[j'] == b[j];
      assert i' != j';
    }
  }

  // ----- the canonical form

  /** The addresses just outside a coalesced block are not covered. */
  lemma BordersUncovered(bs: seq<Block>, limit: int, i: nat)
    requires Layout(bs, limit) && Coalesced(bs) && i < |bs|
    ensures !Covers(bs, bs[i].start - 1) && !Covers(bs, bs[i].End())
  {
    forall k | 0 <= k < |bs|
      ensures !bs[k].Has(bs[i].start - 1) && !bs[k].Has(bs[i].End())
    {
      assert bs[k].Within(limit) && bs[i].Within(limit);
      assert k != i ==> Apart(bs[i], bs[k]);
      assert bs[k].End() != bs[i].start && bs[i].End() != bs[k].start;
    }
  }

  lemma CanonicalMember(a: seq<Block>, b: seq<Block>, limit: int, i: nat)
    requires Layout(a, limit) && Coalesced(a) && Layout(b, limit) && Coalesced(b)
    requires forall x :: Covers(a, x) <==> Covers(b, x)
    requires i < |a|
    ensures a[i] in b
  {
    var x := a[i];
    assert x.Within(limit);
    assert x.Has(x.start) && Covers(a, x.start);
    var j :| 0 <= j < |b| && b[j].Has(x.start);
    var y := b[j];
    BordersUncovered(a, limit, i);
    BordersUncovered(b, limit, j);
    assert y.start >= x.start by {
      assert y.start < x.start ==> y.Has(x.start - 1);
    }
    assert y.End() <= x.End() by {
      assert y.End() > x.End() ==> y.Has(x.End());
    }
    assert y.End() >= x.End() by {
      assert y.End() < x.End() ==> x.Has(y.End());
    }
  }

  /** A coalesced layout is determined, up to order, by the addresses it covers. */
  lemma CanonicalForm(a: seq<Block>, b: seq<Block>, limit: int)
    requires Layout(a, limit) && Coalesced(a) && Layout(b, limit) && Coalesced(b)
    requires forall x :: Covers(a, x) <==> Covers(b, x)
    ensures multiset(a) == multiset(b)
  {
    forall x
      ensures x in a <==> x in b
    {
      if x in a {
        var i :| 0 <= i < |a| && a[i] == x;
        CanonicalMember(a, b, limit, i);
      }
      if x in b {
        var i :| 0 <= i < |b| && b[i] == x;
        CanonicalMember(b, a, limit, i);
      }
    }
    LayoutDistinct(a, limit);
    LayoutDistinct(b, limit);
    SameSetSameMultiset(a, b);
  }
}
