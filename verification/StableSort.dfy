/**
 A stable sort by a strict order: elements that the order does not separate
 stay in the order they came in.
 */
module StableSort {

  /** A strict order in which being inseparable is transitive. */
  ghost predicate IsOrder<T(!new)>(less: (T, T) -> bool) {
    && (forall x, y :: less(x, y) ==> !less(y, x))
    && (forall x, y, z :: less(x, z) ==> less(x, y) || less(y, z))
  }

  function Insert<T>(x: T, sorted: seq<T>, less: (T, T) -> bool): seq<T> {
    if sorted != [] && less(sorted[0], x) then [sorted[0]] + Insert(x, sorted[1..], less) else [x] + sorted
  }

  function Sort<T>(s: seq<T>, less: (T, T) -> bool): seq<T> {
    if s == [] then [] else Insert(s[0], Sort(s[1..], less), less)
  }

  ghost predicate IsSorted<T>(s: seq<T>, less: (T, T) -> bool) {
    forall i, j :: 0 <= i < j < |s| ==> !less(s[j], s[i])
  }

  lemma {:induction false} InsertPermutes<T>(x: T, sorted: seq<T>, less: (T, T) -> bool)
    ensures multiset(Insert(x, sorted, less)) == multiset(sorted) + multiset{x}
  {
    if sorted != [] && less(sorted[0], x) {
      InsertPermutes(x, sorted[1..], less);
      assert sorted == [sorted[0]] + sorted[1..];
    }
  }

  lemma {:induction false} SortPermutes<T>(s: seq<T>, less: (T, T) -> bool)
    ensures multiset(Sort(s, less)) == multiset(s) && |Sort(s, less)| == |s|
  {
    if s != [] {
      SortPermutes(s[1..], less);
      InsertPermutes(s[0], Sort(s[1..], less), less);
      assert s == [s[0]] + s[1..];
    }
    assert |multiset(Sort(s, less))| == |multiset(s)|;
  }

  ghost predicate NoneLess<T>(s: seq<T>, less: (T, T) -> bool, x: T) { forall i :: 0 <= i < |s| ==> !less(s[i], x) }

  lemma SortedFront<T>(x: T, rest: seq<T>, less: (T, T) -> bool)
    requires IsSorted(rest, less) && NoneLess(rest, less, x)
    ensures IsSorted([x] + rest, less)
  {
  }

  lemma {:induction false} InsertedNoneLess<T>(x: T, sorted: seq<T>, less: (T, T) -> bool, y: T)
    requires NoneLess(sorted, less, y) && !less(x, y)
    ensures NoneLess(Insert(x, sorted, less), less, y)
  {
    if sorted != [] && less(sorted[0], x) { InsertedNoneLess(x, sorted[1..], less, y); }
  }

  lemma {:induction false} InsertSorts<T(!new)>(x: T, sorted: seq<T>, less: (T, T) -> bool)
    requires IsOrder(less) && IsSorted(sorted, less)
    ensures IsSorted(Insert(x, sorted, less), less)
  {
    if sorted != [] && less(sorted[0], x) {
      InsertSorts(x, sorted[1..], less);
      InsertedNoneLess(x, sorted[1..], less, sorted[0]);
      SortedFront(sorted[0], Insert(x, sorted[1..], less), less);
    } else {
      SortedFront(x, sorted, less);
    }
  }

  lemma {:induction false} SortSorts<T(!new)>(s: seq<T>, less: (T, T) -> bool)
    requires IsOrder(less)
    ensures IsSorted(Sort(s, less), less)
  {
    if s != [] {
      SortSorts(s[1..], less);
      InsertSorts(s[0], Sort(s[1..], less), less);
    }
  }

  /** The first of the least elements. */
  ghost predicate IsFirstLeast<T>(s: seq<T>, less: (T, T) -> bool, k: nat) {
    k < |s| && (forall j :: 0 <= j < |s| ==> !less(s[j], s[k])) && forall j :: 0 <= j < k ==> less(s[k], s[j])
  }

  /** Sorting brings the first of the least elements to the front. */
  lemma {:induction false} SortHead<T(!new)>(s: seq<T>, less: (T, T) -> bool) returns (k: nat)
    requires IsOrder(less) && s != []
    ensures IsFirstLeast(s, less, k) && Sort(s, less) != [] && Sort(s, less)[0] == s[k]
  {
    if |s| == 1 {
      assert !less(s[0], s[0]);
      return 0;
    }
    k := SortHead(s[1..], less);
    var head := s[1..][k];
    forall j | 1 <= j < |s| ensures !less(s[j], head) { assert s[j] == s[1..][j - 1]; }
    if less(head, s[0]) {
      forall j | 1 <= j <= k ensures less(head, s[j]) { assert s[j] == s[1..][j - 1]; }
      k := k + 1;
    } else {
      k := 0;
      assert !less(s[0], s[0]);
    }
  }
}
