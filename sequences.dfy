/** Generic facts about sequences used by the table operations. */
module Sequences {

  /** `s` with the element at index `j` taken out. */
  function RemoveAt<T>(s: seq<T>, j: nat): (r: seq<T>)
    requires j < |s|
    ensures |r| == |s| - 1
    ensures forall i :: 0 <= i < j ==> r[i] == s[i]
    ensures forall i :: j <= i < |r| ==> r[i] == s[i + 1]
  {
    s[..j] + s[j + 1..]
  }

  lemma RemoveAtMultiset<T>(s: seq<T>, j: nat)
    requires j < |s|
    ensures multiset(RemoveAt(s, j)) == multiset(s) - multiset{s[j]}
    ensures multiset(s) == multiset(RemoveAt(s, j)) + multiset{s[j]}
  {
    assert s == s[..j] + [s[j]] + s[j + 1..];
  }

  /** A sequence whose elements all differ. */
  predicate Distinct<T(==)>(s: seq<T>) {
    forall i, j :: 0 <= i < j < |s| ==> s[i] != s[j]
  }

  /** Element distinctness survives a permutation. */
  lemma {:induction false} DistinctPermutation<T>(s: seq<T>, t: seq<T>)
    requires multiset(s) == multiset(t) && Distinct(s)
    ensures Distinct(t)
  {
    forall i, j | 0 <= i < j < |t| ensures t[i] != t[j] {
      if t[i] == t[j] {
        assert t == t[..j] + [t[j]] + t[j + 1..];
        assert t[..j] == t[..i] + [t[i]] + t[i + 1..j];
        assert multiset(t)[t[i]] >= 2;
        CountAtMostOne(s, t[i]);
      }
    }
  }

  /** In a sequence without repeats, every value occurs at most once. */
  lemma {:induction false} CountAtMostOne<T>(s: seq<T>, x: T)
    requires Distinct(s)
    ensures multiset(s)[x] <= 1
  {
    if s != [] {
      assert Distinct(s[1..]);
      CountAtMostOne(s[1..], x);
      assert s == [s[0]] + s[1..];
      if s[0] == x {
        assert forall k :: 0 <= k < |s[1..]| ==> s[1..][k] == s[k + 1];
        assert x !in s[1..];
      }
    }
  }

  /** The elements of `s` whose flag in `keep` is set, in order. */
  function Select<T>(s: seq<T>, keep: seq<bool>): (r: seq<T>)
    requires |keep| == |s|
    ensures |r| <= |s|
  {
    if s == [] then []
    else
      var n := |s| - 1;
      Select(s[..n], keep[..n]) + if keep[n] then [s[n]] else []
  }

  /** The count of `x` in a non-empty sequence is its count before the last element, plus that element. */
  lemma CountSnoc<T>(s: seq<T>, x: T)
    requires s != []
    ensures multiset(s)[x] == multiset(s[..|s| - 1])[x] + if s[|s| - 1] == x then 1 else 0
  {
    assert s == s[..|s| - 1] + [s[|s| - 1]];
  }

  /** Selecting with every flag set keeps everything. */
  lemma {:induction false} SelectAll<T>(s: seq<T>, keep: seq<bool>)
    requires |keep| == |s| && forall i :: 0 <= i < |keep| ==> keep[i]
    ensures Select(s, keep) == s
  {
    if s != [] {
      var n := |s| - 1;
      SelectAll(s[..n], keep[..n]);
      assert s == s[..n] + [s[n]];
    }
  }

  /** Selecting by a condition on the elements keeps every copy of an element that meets it, and nothing else. */
  lemma {:induction false} SelectWhereCount<T>(s: seq<T>, p: T -> bool, x: T)
    ensures multiset(Select(s, Map(s, p)))[x] == if p(x) then multiset(s)[x] else 0
  {
    if s != [] {
      var n := |s| - 1;
      assert Map(s, p)[..n] == Map(s[..n], p);
      SelectWhereCount(s[..n], p, x);
      assert s == s[..n] + [s[n]];
    }
  }

  /**
   * The selected elements are those at the flagged positions, in order: `idx` lists
   * the flagged positions, ascending.
   */
  lemma {:induction false} SelectIndices<T>(s: seq<T>, keep: seq<bool>) returns (idx: seq<nat>)
    requires |keep| == |s|
    ensures |idx| == |Select(s, keep)|
    ensures forall j :: 0 <= j < |idx| ==> idx[j] < |s| && keep[idx[j]] && Select(s, keep)[j] == s[idx[j]]
    ensures forall j, k :: 0 <= j < k < |idx| ==> idx[j] < idx[k]
    ensures forall i :: 0 <= i < |s| && keep[i] ==> i in idx
  {
    if s == [] {
      idx := [];
    } else {
      var n := |s| - 1;
      var prev := SelectIndices(s[..n], keep[..n]);
      idx := prev + if keep[n] then [n] else [];
      assert forall i :: 0 <= i < n ==> s[..n][i] == s[i] && keep[..n][i] == keep[i];
    }
  }

  /** `f` applied to every element, in order. */
  function Map<A, B>(s: seq<A>, f: A -> B): (r: seq<B>)
    ensures |r| == |s|
    ensures forall i {:trigger r[i]} :: 0 <= i < |s| ==> r[i] == f(s[i])
  {
    seq(|s|, i requires 0 <= i < |s| => f(s[i]))
  }

  /** `op` folded over `xs` from the right, starting from `unit`. */
  function Fold<T>(xs: seq<T>, op: (T, T) -> T, unit: T): T {
    if xs == [] then unit else op(xs[0], Fold(xs[1..], op, unit))
  }

  /** `op` is associative and commutative. */
  ghost predicate AssocComm<T(!new)>(op: (T, T) -> T) {
    (forall a, b :: op(a, b) == op(b, a)) &&
    (forall a, b, c :: op(a, op(b, c)) == op(op(a, b), c))
  }

  /** Under an associative and commutative `op`, two operands trade places. */
  lemma Exchange<T(!new)>(op: (T, T) -> T, a: T, b: T, c: T)
    requires AssocComm(op)
    ensures op(a, op(b, c)) == op(b, op(a, c))
  {
    calc {
      op(a, op(b, c));
      op(op(a, b), c);
      { assert op(a, b) == op(b, a); }
      op(op(b, a), c);
      op(b, op(a, c));
    }
  }

  /** Taking one operand out of a fold and applying it afterwards gives the same value. */
  lemma {:induction false} FoldRemove<T(!new)>(xs: seq<T>, j: nat, op: (T, T) -> T, unit: T)
    requires AssocComm(op) && j < |xs|
    ensures Fold(xs, op, unit) == op(xs[j], Fold(RemoveAt(xs, j), op, unit))
  {
    if j > 0 {
      var tail := RemoveAt(xs[1..], j - 1);
      FoldRemove(xs[1..], j - 1, op, unit);
      assert RemoveAt(xs, j) == [xs[0]] + tail;
      assert RemoveAt(xs, j)[1..] == tail;
      Exchange(op, xs[0], xs[j], Fold(tail, op, unit));
    } else {
      assert RemoveAt(xs, 0) == xs[1..];
    }
  }

  /** A fold by an associative and commutative `op` does not depend on the order of the operands. */
  lemma {:induction false} FoldPermutation<T(!new)>(xs: seq<T>, ys: seq<T>, op: (T, T) -> T, unit: T)
    requires AssocComm(op) && multiset(xs) == multiset(ys)
    ensures Fold(xs, op, unit) == Fold(ys, op, unit)
    decreases |xs|
  {
    if xs == [] {
      assert |ys| == |multiset(ys)| == 0;
    } else {
      var j := PermutationHead(xs, ys);
      FoldPermutation(xs[1..], RemoveAt(ys, j), op, unit);
      FoldRemove(ys, j, op, unit);
    }
  }

  /** Mapping commutes with taking an element out. */
  lemma MapRemove<A, B>(s: seq<A>, j: nat, f: A -> B)
    requires j < |s|
    ensures Map(RemoveAt(s, j), f) == RemoveAt(Map(s, f), j)
  {
  }

  /** Mapping a permutation gives a permutation of the mapped sequence. */
  lemma {:induction false} MapPermutation<A, B>(s: seq<A>, t: seq<A>, f: A -> B)
    requires multiset(s) == multiset(t)
    ensures multiset(Map(s, f)) == multiset(Map(t, f))
    decreases |s|
  {
    if s == [] {
      assert |t| == |multiset(t)| == 0;
    } else {
      var j := PermutationHead(s, t);
      MapPermutation(s[1..], RemoveAt(t, j), f);
      MapRemove(t, j, f);
      RemoveAtMultiset(Map(t, f), j);
      assert Map(s, f) == [f(s[0])] + Map(s[1..], f);
    }
  }

  /**
   * The first element of `s` occurs at some index `j` of a permutation `t`, and the rest
   * of `s` is a permutation of `t` without that element.
   */
  lemma PermutationHead<T>(s: seq<T>, t: seq<T>) returns (j: nat)
    requires multiset(s) == multiset(t) && s != []
    ensures j < |t| && t[j] == s[0]
    ensures multiset(s[1..]) == multiset(RemoveAt(t, j))
  {
    assert s == [s[0]] + s[1..];
    assert s[0] in multiset(t);
    j :| 0 <= j < |t| && t[j] == s[0];
    RemoveAtMultiset(t, j);
  }

  /** The concatenation of `f` applied to every element, in order. */
  function FlatMap<A, B>(s: seq<A>, f: A --> seq<B>): (r: seq<B>)
    requires forall i :: 0 <= i < |s| ==> f.requires(s[i])
  {
    if s == [] then []
    else
      var n := |s| - 1;
      assert forall i :: 0 <= i < n ==> s[..n][i] == s[i];
      FlatMap(s[..n], f) + f(s[n])
  }

  /** When every part is non-empty, there are at least as many elements as parts. */
  lemma {:induction false} FlatMapLength<A, B>(s: seq<A>, f: A --> seq<B>)
    requires forall i :: 0 <= i < |s| ==> f.requires(s[i]) && |f(s[i])| > 0
    ensures |FlatMap(s, f)| >= |s|
  {
    if s != [] {
      var n := |s| - 1;
      assert forall i :: 0 <= i < n ==> s[..n][i] == s[i];
      FlatMapLength(s[..n], f);
    }
  }

  /** Every element comes from the part of some element of `s`. */
  lemma {:induction false} FlatMapMember<A, B>(s: seq<A>, f: A --> seq<B>, y: B) returns (i: nat)
    requires forall i :: 0 <= i < |s| ==> f.requires(s[i])
    requires y in FlatMap(s, f)
    ensures i < |s| && y in f(s[i])
  {
    var n := |s| - 1;
    assert forall k :: 0 <= k < n ==> s[..n][k] == s[k];
    if y in FlatMap(s[..n], f) {
      i := FlatMapMember(s[..n], f, y);
    } else {
      i := n;
    }
  }

  /** The first element of the part of `s[i]` is at some position of the whole. */
  lemma {:induction false} FlatMapFirst<A, B>(s: seq<A>, f: A --> seq<B>, i: nat) returns (p: nat)
    requires forall i :: 0 <= i < |s| ==> f.requires(s[i])
    requires i < |s| && |f(s[i])| > 0
    ensures p < |FlatMap(s, f)| && FlatMap(s, f)[p] == f(s[i])[0]
  {
    var n := |s| - 1;
    assert forall k :: 0 <= k < n ==> s[..n][k] == s[k];
    var prefix := FlatMap(s[..n], f);
    if i < n {
      p := FlatMapFirst(s[..n], f, i);
      assert (prefix + f(s[n]))[p] == prefix[p];
    } else {
      p := |prefix|;
      assert (prefix + f(s[n]))[p] == f(s[n])[0];
    }
  }

  /** When every part has one element, the whole is those elements in order. */
  lemma {:induction false} FlatMapSingles<A, B>(s: seq<A>, f: A --> seq<B>)
    requires forall i :: 0 <= i < |s| ==> f.requires(s[i]) && |f(s[i])| == 1
    ensures |FlatMap(s, f)| == |s|
    ensures forall i :: 0 <= i < |s| ==> FlatMap(s, f)[i] == f(s[i])[0]
  {
    if s != [] {
      var n := |s| - 1;
      assert forall k :: 0 <= k < n ==> s[..n][k] == s[k];
      FlatMapSingles(s[..n], f);
      var prev := FlatMap(s[..n], f);
      assert FlatMap(s, f) == prev + f(s[n]);
      forall i | 0 <= i < |s| ensures FlatMap(s, f)[i] == f(s[i])[0] {
        if i < n {
          assert (prev + f(s[n]))[i] == prev[i];
        }
      }
    }
  }
}
