/** Sorting a column by a total preorder, as a dataframe `sort(by)` does. */
module Sorting {

  /** `le` compares any two values and is transitive. */
  ghost predicate TotalPreorder<T(!new)>(le: (T, T) -> bool) {
    && (forall a, b :: le(a, b) || le(b, a))
    && (forall a, b, c :: le(a, b) && le(b, c) ==> le(a, c))
  }

  /** Every earlier element is `le` every later one. */
  ghost predicate SortedBy<T>(s: seq<T>, le: (T, T) -> bool) {
    forall i, j :: 0 <= i < j < |s| ==> le(s[i], s[j])
  }

  /** Cutting a sequence splits its multiset. */
  lemma MultisetCut<T>(s: seq<T>, m: nat)
    requires m <= |s|
    ensures multiset(s[..m]) <= multiset(s)
    ensures multiset(s) - multiset(s[..m]) == multiset(s[m..])
  {
    assert s == s[..m] + s[m..];
  }

  /** Putting `y` in front of a sorted sequence keeps it sorted when `y` is `le` each of its elements. */
  lemma SortedCons<T>(y: T, t: seq<T>, le: (T, T) -> bool)
    requires SortedBy(t, le) && forall z :: z in multiset(t) ==> le(y, z)
    ensures SortedBy([y] + t, le)
  {
    forall i, j | 0 <= i < j < |[y] + t| ensures le(([y] + t)[i], ([y] + t)[j]) {
      if i == 0 {
        assert t[j - 1] in multiset(t);
      }
    }
  }

  /** The first element of a sorted sequence is `le` every element. */
  lemma SortedFirst<T(!new)>(s: seq<T>, le: (T, T) -> bool, z: T)
    requires SortedBy(s, le) && |s| > 0 && z in multiset(s[1..])
    ensures le(s[0], z)
  {
    var j :| 0 <= j < |s[1..]| && s[1..][j] == z;
    assert s[j + 1] == z;
  }

  /** Insert `x` into `s` before the first element it is `le`. */
  function Insert<T(!new)>(x: T, s: seq<T>, le: (T, T) -> bool): (r: seq<T>)
    requires TotalPreorder(le) && SortedBy(s, le)
    ensures |r| == |s| + 1
    ensures multiset(r) == multiset(s) + multiset{x}
    ensures SortedBy(r, le)
  {
    if s == [] then [x]
    else
      assert s == [s[0]] + s[1..];
      if le(x, s[0]) then
        assert forall z :: z in multiset(s) ==> le(x, z) by {
          forall z | z in multiset(s) ensures le(x, z) {
            if z != s[0] { SortedFirst(s, le, z); }
          }
        }
        SortedCons(x, s, le);
        [x] + s
      else
        assert SortedBy(s[1..], le);
        var t := Insert(x, s[1..], le);
        assert forall z :: z in multiset(t) ==> le(s[0], z) by {
          forall z | z in multiset(t) ensures le(s[0], z) {
            if z != x { SortedFirst(s, le, z); }
          }
        }
        SortedCons(s[0], t, le);
        [s[0]] + t
  }

  /** An insertion sort of `xs` by `le`: a permutation of `xs`, sorted. */
  function SortBy<T(!new)>(xs: seq<T>, le: (T, T) -> bool): (s: seq<T>)
    requires TotalPreorder(le)
    ensures |s| == |xs|
    ensures multiset(s) == multiset(xs)
    ensures SortedBy(s, le)
  {
    if xs == [] then []
    else
      assert xs == [xs[0]] + xs[1..];
      Insert(xs[0], SortBy(xs[1..], le), le)
  }

  /** In a sorted sequence, every element before a cut is `le` every element after it. */
  lemma SortedCut<T>(s: seq<T>, le: (T, T) -> bool, m: nat)
    requires SortedBy(s, le) && m <= |s|
    ensures forall x, y :: x in multiset(s[..m]) && y in multiset(s[m..]) ==> le(x, y)
  {
    forall x, y | x in multiset(s[..m]) && y in multiset(s[m..]) ensures le(x, y) {
      var i :| 0 <= i < m && s[..m][i] == x;
      var j :| 0 <= j < |s| - m && s[m..][j] == y;
      assert s[i] == x && s[m + j] == y;
    }
  }

  /**
   * The first `m` elements of the sorted sequence are taken from `xs`, and each is `le`
   * every element of `xs` they leave out.
   */
  lemma SortedHead<T(!new)>(xs: seq<T>, le: (T, T) -> bool, m: nat)
    requires TotalPreorder(le) && m <= |xs|
    ensures multiset(SortBy(xs, le)[..m]) <= multiset(xs)
    ensures forall x, y :: x in multiset(SortBy(xs, le)[..m]) && y in multiset(xs) - multiset(SortBy(xs, le)[..m]) ==> le(x, y)
  {
    var s := SortBy(xs, le);
    MultisetCut(s, m);
    SortedCut(s, le, m);
  }
}
