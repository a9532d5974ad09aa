/** What the C library's `qsort` promises: a sorted permutation, and nothing about
    the order of equal keys. */
module Sorting {
  import opened Sequences

  ghost predicate SortedBy<T>(s: seq<T>, key: T -> int) {
    forall i, j :: 0 <= i < j < |s| ==> key(s[i]) <= key(s[j])
  }

  method Qsort<T(==)>(s: seq<T>, key: T -> int) returns (r: seq<T>)
    ensures SortedBy(r, key)
    ensures multiset(r) == multiset(s)
  {
    r := [];
    for i := 0 to |s|
      invariant SortedBy(r, key)
      invariant multiset(r) == multiset(s[..i])
    {
      r := Insert(r, s[i], key);
      assert s[..i + 1] == s[..i] + [s[i]];
    }
    assert s[..|s|] == s;
  }

  method Insert<T>(s: seq<T>, x: T, key: T -> int) returns (r: seq<T>)
    requires SortedBy(s, key)
    ensures SortedBy(r, key)
    ensures multiset(r) == multiset(s) + multiset{x}
  {
    var j := |s|;
    while j > 0 && key(s[j - 1]) > key(x)
      invariant 0 <= j <= |s|
      invariant forall k :: j <= k < |s| ==> key(s[k]) > key(x)
    {
      j := j - 1;
    }
    SortedAfterInsert(s, j, x, key);
    InsertedOne(s, j, x);
    r := s[..j] + [x] + s[j..];
  }

  lemma InsertedOne<T>(s: seq<T>, j: nat, x: T)
    requires j <= |s|
    ensures multiset(s[..j] + [x] + s[j..]) == multiset(s) + multiset{x}
  {
    assert s == s[..j] + s[j..];
  }

  lemma SortedAfterInsert<T>(s: seq<T>, j: nat, x: T, key: T -> int)
    requires SortedBy(s, key) && j <= |s|
    requires j > 0 ==> key(s[j - 1]) <= key(x)
    requires forall k :: j <= k < |s| ==> key(x) <= key(s[k])
    ensures SortedBy(s[..j] + [x] + s[j..], key)
  {
    var r := s[..j] + [x] + s[j..];
    assert forall k :: 0 <= k < j ==> r[k] == s[k] && key(s[k]) <= key(x);
    assert forall k :: j < k < |r| ==> r[k] == s[k - 1];
  }

  lemma SameMembers<T>(a: seq<T>, b: seq<T>)
    requires multiset(a) == multiset(b)
    ensures |a| == |b|
    ensures forall x :: x in a <==> x in b
  {
    assert |multiset(a)| == |multiset(b)|;
    forall x
      ensures x in a <==> x in b
    {
      assert x in multiset(a) <==> x in multiset(b);
    }
  }

  lemma WithoutOne<T>(s: seq<T>, i: nat)
    requires i < |s|
    ensures multiset(s[..i] + s[i + 1..]) == multiset(s) - multiset{s[i]}
  {
    TakenApart(s, i);
  }

  /** In a list without duplicates every element counts once. */
  lemma {:induction false} CountedOnce<T>(s: seq<T>)
    requires Distinct(s)
    ensures forall x :: x in s ==> multiset(s)[x] == 1
  {
    if s != [] {
      var n := |s| - 1;
      CountedOnce(s[..n]);
      assert s == s[..n] + [s[n]];
      assert s[n] !in s[..n];
    }
  }

  lemma CountedTwice<T>(s: seq<T>, i: nat, j: nat)
    requires i < j < |s| && s[i] == s[j]
    ensures multiset(s)[s[i]] >= 2
  {
    assert s == s[..j] + s[j..];
    assert s[i] in s[..j] && s[i] in s[j..];
  }

  lemma DistinctPermute<T>(a: seq<T>, b: seq<T>)
    requires multiset(a) == multiset(b) && Distinct(a)
    ensures Distinct(b)
  {
    CountedOnce(a);
    SameMembers(a, b);
    forall i, j | 0 <= i < j < |b|
      ensures b[i] != b[j]
    {
      assert b[i] in a;
      if b[i] == b[j] {
        CountedTwice(b, i, j);
      }
    }
  }

  /** Two lists without duplicates and with the same members are permutations. */
  lemma SameSetSameMultiset<T>(a: seq<T>, b: seq<T>)
    requires Distinct(a) && Distinct(b)
    requires forall x :: x in a <==> x in b
    ensures multiset(a) == multiset(b)
  {
    CountedOnce(a);
    CountedOnce(b);
    forall x
      ensures multiset(a)[x] == multiset(b)[x]
    {
      if x in a {
        assert x in b;
      } else {
        assert x !in multiset(a) && x !in multiset(b);
      }
    }
  }
}
