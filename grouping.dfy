/**
 * Grouping rows by a key, as a dataframe `group_by(key).agg(...)` does: one group per
 * distinct key, holding the aggregated column's values of that key's rows in row order.
 */
module Grouping {

  /** The keys of `pairs`, each once, in order of first appearance. */
  function Keys<K(==), V>(pairs: seq<(K, V)>): (ks: seq<K>)
    ensures forall i, j :: 0 <= i < j < |ks| ==> ks[i] != ks[j]
    ensures forall i :: 0 <= i < |pairs| ==> pairs[i].0 in ks
    ensures forall j :: 0 <= j < |ks| ==> exists i :: 0 <= i < |pairs| && pairs[i].0 == ks[j]
  {
    if pairs == [] then []
    else
      var ks := Keys(pairs[..|pairs| - 1]);
      assert forall i :: 0 <= i < |pairs| - 1 ==> pairs[..|pairs| - 1][i] == pairs[i];
      if pairs[|pairs| - 1].0 in ks then ks else ks + [pairs[|pairs| - 1].0]
  }

  /** The values of the rows whose key is `k`, in row order. */
  function ValuesOf<K(==), V>(pairs: seq<(K, V)>, k: K): (vs: seq<V>)
    ensures |vs| <= |pairs|
  {
    if pairs == [] then []
    else ValuesOf(pairs[..|pairs| - 1], k) + (if pairs[|pairs| - 1].0 == k then [pairs[|pairs| - 1].1] else [])
  }

  /** One group per distinct key, in order of first appearance, with its values in row order. */
  function GroupBy<K(==), V>(pairs: seq<(K, V)>): (gs: seq<(K, seq<V>)>)
    ensures |gs| == |Keys(pairs)|
    ensures forall i :: 0 <= i < |gs| ==> gs[i] == (Keys(pairs)[i], ValuesOf(pairs, Keys(pairs)[i]))
  {
    var ks := Keys(pairs);
    seq(|ks|, i requires 0 <= i < |ks| => (ks[i], ValuesOf(pairs, ks[i])))
  }

  /** A value occurs in a key's group as often as the (key, value) row occurs in the input. */
  lemma {:induction false} ValuesOfCount<K, V>(pairs: seq<(K, V)>, k: K, v: V)
    ensures multiset(ValuesOf(pairs, k))[v] == multiset(pairs)[(k, v)]
  {
    if pairs != [] {
      var init := pairs[..|pairs| - 1];
      ValuesOfCount(init, k, v);
      assert pairs == init + [pairs[|pairs| - 1]];
    }
  }

  /** Regrouping a permutation of the rows gives each key the same values, perhaps reordered. */
  lemma ValuesOfPermutation<K, V(!new)>(pairs: seq<(K, V)>, others: seq<(K, V)>, k: K)
    requires multiset(pairs) == multiset(others)
    ensures multiset(ValuesOf(pairs, k)) == multiset(ValuesOf(others, k))
  {
    forall v: V ensures multiset(ValuesOf(pairs, k))[v] == multiset(ValuesOf(others, k))[v] {
      ValuesOfCount(pairs, k, v);
      ValuesOfCount(others, k, v);
    }
  }

  /** A key's group is non-empty exactly when some row has that key. */
  lemma {:induction false} ValuesOfNonEmpty<K, V>(pairs: seq<(K, V)>, k: K)
    ensures |ValuesOf(pairs, k)| > 0 <==> exists i :: 0 <= i < |pairs| && pairs[i].0 == k
  {
    if pairs != [] {
      var init := pairs[..|pairs| - 1];
      ValuesOfNonEmpty(init, k);
      assert forall i :: 0 <= i < |init| ==> init[i] == pairs[i];
    }
  }

  /** A row that has the `j`-th key. */
  lemma KeyWitness<K, V>(pairs: seq<(K, V)>, j: nat) returns (i: nat)
    requires j < |Keys(pairs)|
    ensures i < |pairs| && pairs[i].0 == Keys(pairs)[j]
  {
    i :| 0 <= i < |pairs| && pairs[i].0 == Keys(pairs)[j];
  }

  /** The position of a row's key among the keys. */
  lemma KeyPosition<K, V>(pairs: seq<(K, V)>, i: nat) returns (j: nat)
    requires i < |pairs|
    ensures j < |Keys(pairs)| && Keys(pairs)[j] == pairs[i].0
  {
    assert pairs[i].0 in Keys(pairs);
    j :| 0 <= j < |Keys(pairs)| && Keys(pairs)[j] == pairs[i].0;
  }
}
