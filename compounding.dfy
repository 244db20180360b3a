/** Products of growth factors, running products, sums and means over columns of reals. */
module Compounding {
  import opened Tables
  import opened Sequences

  /** The product of a column (1 for an empty column). */
  function Product(xs: seq<real>): real {
    if xs == [] then 1.0 else xs[0] * Product(xs[1..])
  }

  /** The sum of a column (0 for an empty column). */
  function Sum(xs: seq<real>): real {
    if xs == [] then 0.0 else xs[0] + Sum(xs[1..])
  }

  /** The growth factor `1 + r` of a return `r`. */
  function Grow(r: real): real {
    1.0 + r
  }

  /** Growth factors `1 + r` of a column of returns. */
  function Growths(rs: seq<real>): (gs: seq<real>)
    ensures |gs| == |rs|
    ensures forall i :: 0 <= i < |rs| ==> gs[i] - 1.0 == rs[i]
  {
    Map(rs, Grow)
  }

  /** Compounding returns: multiply the growth factors and turn the product back into a return. */
  function Compound(rs: seq<real>): real {
    Product(Growths(rs)) - 1.0
  }

  /** The running products of a column, each multiplied into `acc`, as a cumulative product computes them. */
  function CumProdFrom(acc: real, xs: seq<real>): (cs: seq<real>)
    ensures |cs| == |xs|
    decreases xs
  {
    if xs == [] then [] else [acc * xs[0]] + CumProdFrom(acc * xs[0], xs[1..])
  }

  /** The cumulative product of a column. */
  function CumProd(xs: seq<real>): seq<real> {
    CumProdFrom(1.0, xs)
  }

  /** The last cell of a column, null when the column is empty. */
  function Last(xs: seq<real>): (r: Option<real>)
    ensures r.Some? <==> |xs| > 0
  {
    if xs == [] then None else Some(xs[|xs| - 1])
  }

  /** The mean of a column, null when the column is empty. */
  function Mean(xs: seq<real>): (r: Option<real>)
    ensures r.Some? <==> |xs| > 0
  {
    if xs == [] then None else Some(Sum(xs) / (|xs| as real))
  }

  /** `x` to the power `n`. */
  function Pow(x: real, n: nat): real {
    if n == 0 then 1.0 else x * Pow(x, n - 1)
  }

  /** The last running product is the product of the whole column scaled by the start value. */
  lemma {:induction false} CumProdFromLast(acc: real, xs: seq<real>)
    requires |xs| > 0
    ensures CumProdFrom(acc, xs)[|xs| - 1] == acc * Product(xs)
    decreases xs
  {
    if |xs| == 1 {
      assert xs[1..] == [];
    } else {
      CumProdFromLast(acc * xs[0], xs[1..]);
      assert CumProdFrom(acc, xs)[|xs| - 1] == CumProdFrom(acc * xs[0], xs[1..])[|xs| - 2];
    }
  }

  /** `cum_prod().last()` of a non-empty column is its product; of an empty column it is null. */
  lemma LastOfCumProd(xs: seq<real>)
    ensures Last(CumProd(xs)) == if xs == [] then None else Some(Product(xs))
  {
    if xs != [] {
      CumProdFromLast(1.0, xs);
    }
  }

  /** Multiplication as a function value, to fold with. */
  function Mul(a: real, b: real): real {
    a * b
  }

  /** Addition as a function value, to fold with. */
  function Add(a: real, b: real): real {
    a + b
  }

  lemma ArithmeticAssocComm()
    ensures AssocComm(Mul) && AssocComm(Add)
  {
  }

  /** The product is a fold by multiplication. */
  lemma {:induction false} ProductIsFold(xs: seq<real>)
    ensures Product(xs) == Fold(xs, Mul, 1.0)
  {
    if xs != [] {
      ProductIsFold(xs[1..]);
    }
  }

  /** The sum is a fold by addition. */
  lemma {:induction false} SumIsFold(xs: seq<real>)
    ensures Sum(xs) == Fold(xs, Add, 0.0)
  {
    if xs != [] {
      SumIsFold(xs[1..]);
    }
  }

  /** A product does not depend on the order of its factors. */
  lemma ProductPermutation(xs: seq<real>, ys: seq<real>)
    requires multiset(xs) == multiset(ys)
    ensures Product(xs) == Product(ys)
  {
    ArithmeticAssocComm();
    FoldPermutation(xs, ys, Mul, 1.0);
    ProductIsFold(xs);
    ProductIsFold(ys);
  }

  /** A sum does not depend on the order of its terms. */
  lemma SumPermutation(xs: seq<real>, ys: seq<real>)
    requires multiset(xs) == multiset(ys)
    ensures Sum(xs) == Sum(ys)
  {
    ArithmeticAssocComm();
    FoldPermutation(xs, ys, Add, 0.0);
    SumIsFold(xs);
    SumIsFold(ys);
  }

  /** A mean does not depend on the order of the column either. */
  lemma MeanPermutation(xs: seq<real>, ys: seq<real>)
    requires multiset(xs) == multiset(ys)
    ensures Mean(xs) == Mean(ys)
  {
    assert |xs| == |multiset(xs)| == |multiset(ys)| == |ys|;
    SumPermutation(xs, ys);
  }

  /** A compounded return does not depend on the order of the returns. */
  lemma CompoundPermutation(rs: seq<real>, ts: seq<real>)
    requires multiset(rs) == multiset(ts)
    ensures Compound(rs) == Compound(ts)
  {
    GrowthsPermutation(rs, ts);
    ProductPermutation(Growths(rs), Growths(ts));
  }

  lemma GrowthsPermutation(rs: seq<real>, ts: seq<real>)
    requires multiset(rs) == multiset(ts)
    ensures multiset(Growths(rs)) == multiset(Growths(ts))
  {
    MapPermutation(rs, ts, Grow);
  }

  /** Raising a growth factor to the power n is compounding the same return n times. */
  lemma {:induction false} PowIsCompounding(r: real, n: nat)
    ensures Pow(1.0 + r, n) - 1.0 == Compound(seq(n, _ => r))
  {
    if n > 0 {
      PowIsCompounding(r, n - 1);
      var rs := seq(n, _ => r);
      assert Growths(rs) == [1.0 + r] + Growths(seq(n - 1, _ => r));
    } else {
      assert Growths(seq(0, _ => r)) == [];
    }
  }

  /** Daily returns 10% then -5% compound to 4.5%. */
  lemma CompoundExample()
    ensures Compound([0.10, -0.05]) == 0.045
  {
    assert Growths([0.10, -0.05]) == [1.10, 0.95];
    assert Product([1.10, 0.95]) == 1.10 * (0.95 * 1.0);
  }
}
