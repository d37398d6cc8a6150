/** Small notions that several components share. */
module Prelude {

  datatype Option<+T> = None | Some(value: T)

  function Min(a: nat, b: nat): nat
  {
    if a < b then a else b
  }

  function Pow2(n: nat): (r: nat)
    ensures r > 0
  {
    if n == 0 then 1 else 2 * Pow2(n - 1)
  }

  lemma {:induction false} Pow2Monotone(a: nat, b: nat)
    requires a <= b
    ensures Pow2(a) <= Pow2(b)
    ensures a < b ==> 2 * Pow2(a) <= Pow2(b)
  {
    if a < b { Pow2Monotone(a, b - 1); }
  }

  lemma {:induction false} Pow2Sum(a: nat, b: nat)
    ensures Pow2(a + b) == Pow2(a) * Pow2(b)
  {
    if a > 0 { Pow2Sum(a - 1, b); }
  }

  /** The size of `n` pieces of `size`, counted piece by piece. */
  function Multiple(size: nat, n: nat): nat
  {
    if n == 0 then 0 else Multiple(size, n - 1) + size
  }

  lemma {:induction false} MultipleIsProduct(size: nat, n: nat)
    ensures Multiple(size, n) == n * size
  {
    if n > 0 { MultipleIsProduct(size, n - 1); }
  }

  lemma {:induction false} MultipleMonotone(size: nat, a: nat, b: nat)
    requires a <= b
    ensures Multiple(size, a) <= Multiple(size, b)
    ensures a < b ==> Multiple(size, a) + size <= Multiple(size, b)
  {
    if a < b { MultipleMonotone(size, a, b - 1); }
  }

  lemma {:induction false} MultipleSum(size: nat, a: nat, b: nat)
    ensures Multiple(size, a + b) == Multiple(size, a) + Multiple(size, b)
  {
    if b > 0 { MultipleSum(size, a, b - 1); }
  }

  lemma QuotientIs(x: nat, d: nat, q: nat)
    requires d > 0 && q * d <= x < q * d + d
    ensures x / d == q
  {
    var e := x / d - q;
    assert x == (x / d) * d + x % d;
    assert e * d == (x / d) * d - q * d;
    assert e >= 1 ==> e * d >= d;
    assert e < 0 ==> e * d + d <= 0;
  }
}
