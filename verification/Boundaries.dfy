/**
 Sorted boundary lists: the elementary segments that the coverage checks and
 the highlight sweep cut their ranges into.
 */
module Boundaries {

  ghost predicate Increasing(s: seq<int>) {
    forall i, j :: 0 <= i < j < |s| ==> s[i] < s[j]
  }

  /** Inserts a value into a sorted list that holds each value once. */
  function Insert(s: seq<int>, x: int): seq<int> {
    if s == [] || x < s[0] then [x] + s
    else if x == s[0] then s
    else [s[0]] + Insert(s[1..], x)
  }

  /** The values of a list, each once, in increasing order. */
  function SortUnique(xs: seq<int>): seq<int> {
    if xs == [] then [] else Insert(SortUnique(xs[..|xs| - 1]), xs[|xs| - 1])
  }

  lemma IncreasingPrepend(x: int, s: seq<int>)
    requires Increasing(s) && forall y :: y in s ==> x < y
    ensures Increasing([x] + s)
  {
    forall j | 0 <= j < |s| ensures x < s[j] { assert s[j] in s; }
  }

  lemma {:induction false} InsertHolds(s: seq<int>, x: int)
    requires Increasing(s)
    ensures Increasing(Insert(s, x))
    ensures forall y :: y in Insert(s, x) <==> y == x || y in s
  {
    if s != [] {
      assert s == [s[0]] + s[1..];
      if x > s[0] {
        InsertHolds(s[1..], x);
        IncreasingPrepend(s[0], Insert(s[1..], x));
      }
    }
  }

  lemma {:induction false} SortUniqueHolds(xs: seq<int>)
    ensures Increasing(SortUnique(xs))
    ensures forall y :: y in SortUnique(xs) <==> y in xs
  {
    if xs != [] {
      var front, last := xs[..|xs| - 1], xs[|xs| - 1];
      SortUniqueHolds(front);
      InsertHolds(SortUnique(front), last);
      assert xs == front + [last];
    }
  }

  /** No boundary lies strictly inside a segment. */
  lemma NoneInside(s: seq<int>, i: nat, x: int)
    requires Increasing(s) && i + 1 < |s| && x in s
    ensures x <= s[i] || s[i + 1] <= x
  {
  }

  lemma FirstIsLeast(s: seq<int>, x: int)
    requires Increasing(s) && x in s
    ensures s[0] <= x <= s[|s| - 1]
  {
  }
}
