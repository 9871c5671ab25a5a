/** Integer powers and polynomial evaluation, as used by all three sharing
    scripts: a polynomial is its coefficient list, constant term first. */
module Polynomial {
  import opened ModArith

  /** `b ** e` over the unbounded integers. */
  function Pow(b: int, e: nat): int
    decreases e
  {
    if e == 0 then 1 else b * Pow(b, e - 1)
  }

  /** Python's three-argument `pow(b, e, m)` for a positive modulus. */
  function ModPow(b: int, e: nat, m: int): (r: int)
    requires m > 0
    ensures 0 <= r < m
  {
    Pow(b, e) % m
  }

  /** A power of a natural number, as a natural number (the exponent
      Python's `pow(x, j)` yields for x >= 0). */
  function NatPow(b: nat, e: nat): (r: nat)
    ensures r == Pow(b, e)
  {
    PowNonneg(b, e);
    Pow(b, e)
  }

  /** The polynomial with coefficients `c` at `x`, computed exactly:
      the sum of c[i] * x^i. */
  function PolyEval(c: seq<int>, x: int): int
  {
    if |c| == 0 then 0 else PolyEval(c[..|c| - 1], x) + c[|c| - 1] * Pow(x, |c| - 1)
  }

  /** The value of a polynomial with natural coefficients at a natural
      point, as a natural number (an exponent in the commitments). */
  function NatEval(c: seq<nat>, x: nat): (r: nat)
    ensures r == PolyEval(c, x)
  {
    PolyEvalNonneg(c, x);
    PolyEval(c, x)
  }

  /** The sum `sum(coeff * pow(x, i, m) for i, coeff in enumerate(c))`,
      before its final reduction. */
  function ReducedPowerSum(c: seq<int>, x: int, m: int): int
    requires m > 0
  {
    if |c| == 0 then 0 else ReducedPowerSum(c[..|c| - 1], x, m) + c[|c| - 1] * ModPow(x, |c| - 1, m)
  }

  /** A share value as the scripts compute it:
      `sum(coeff * pow(x, i, m) for i, coeff in enumerate(c)) % m`.
      It is the polynomial's value at x, reduced modulo m. */
  function Evaluate(c: seq<int>, x: int, m: int): (r: int)
    requires m > 0
    ensures 0 <= r < m
    ensures r == PolyEval(c, x) % m
  {
    ReducedPowerSumCong(c, x, m);
    ReducedPowerSum(c, x, m) % m
  }

  lemma {:induction false} ReducedPowerSumCong(c: seq<int>, x: int, m: int)
    requires m > 0
    ensures ReducedPowerSum(c, x, m) % m == PolyEval(c, x) % m
  {
    if |c| > 0 {
      var init, last, k := c[..|c| - 1], c[|c| - 1], |c| - 1;
      ReducedPowerSumCong(init, x, m);
      ModOfMod(Pow(x, k), m);
      MulCong(last, last, ModPow(x, k, m), Pow(x, k), m);
      AddCong(ReducedPowerSum(init, x, m), PolyEval(init, x),
              last * ModPow(x, k, m), last * Pow(x, k), m);
    }
  }

  lemma PolyEvalAppend(c: seq<int>, a: int, x: int)
    ensures PolyEval(c + [a], x) == PolyEval(c, x) + a * Pow(x, |c|)
  {
    assert (c + [a])[..|c|] == c;
  }

  /** At x = 0 only the constant term survives. */
  lemma {:induction false} PolyEvalAtZero(c: seq<int>)
    requires |c| > 0
    ensures PolyEval(c, 0) == c[0]
  {
    if |c| > 1 {
      PolyEvalAtZero(c[..|c| - 1]);
      assert Pow(0, |c| - 1) == 0 * Pow(0, |c| - 2);
    }
  }

  /** With natural coefficients and a natural point the value is natural. */
  lemma {:induction false} PolyEvalNonneg(c: seq<int>, x: int)
    requires x >= 0 && forall i :: 0 <= i < |c| ==> c[i] >= 0
    ensures PolyEval(c, x) >= 0
  {
    if |c| > 0 {
      PolyEvalNonneg(c[..|c| - 1], x);
      PowNonneg(x, |c| - 1);
    }
  }

  lemma {:induction false} PowNonneg(b: int, e: nat)
    requires b >= 0
    ensures Pow(b, e) >= 0
  {
    if e > 0 {
      PowNonneg(b, e - 1);
    }
  }

  lemma {:induction false} PowAdd(b: int, e1: nat, e2: nat)
    ensures Pow(b, e1 + e2) == Pow(b, e1) * Pow(b, e2)
  {
    if e1 > 0 {
      PowAdd(b, e1 - 1, e2);
      assert Pow(b, e1 + e2) == b * Pow(b, e1 - 1 + e2);
    }
  }

  lemma {:induction false} PowMul(b: int, e1: nat, e2: nat)
    ensures Pow(b, e1 * e2) == Pow(Pow(b, e1), e2)
  {
    if e2 > 0 {
      PowMul(b, e1, e2 - 1);
      assert e1 * e2 == e1 + e1 * (e2 - 1);
      PowAdd(b, e1, e1 * (e2 - 1));
    }
  }

  lemma {:induction false} PowProduct(b: int, c: int, e: nat)
    ensures Pow(b * c, e) == Pow(b, e) * Pow(c, e)
  {
    if e > 0 {
      PowProduct(b, c, e - 1);
      calc {
        Pow(b * c, e);
        b * c * (Pow(b, e - 1) * Pow(c, e - 1));
        (b * Pow(b, e - 1)) * (c * Pow(c, e - 1));
      }
    }
  }

  lemma {:induction false} PowOfOne(e: nat)
    ensures Pow(1, e) == 1
  {
    if e > 0 {
      PowOfOne(e - 1);
    }
  }

  /** Congruent bases give congruent powers. */
  lemma {:induction false} PowCong(b: int, b': int, e: nat, m: int)
    requires m > 0 && b % m == b' % m
    ensures Pow(b, e) % m == Pow(b', e) % m
  {
    if e > 0 {
      PowCong(b, b', e - 1, m);
      MulCong(b, b', Pow(b, e - 1), Pow(b', e - 1), m);
    }
  }

  /** If g^q is 1 modulo p, exponents of g may be reduced modulo q. */
  lemma PowReduceExponent(g: int, e: nat, q: nat, p: int)
    requires q > 0 && p > 0 && Pow(g, q) % p == 1 % p
    ensures Pow(g, e) % p == Pow(g, e % q) % p
  {
    var k, r := e / q, e % q;
    assert e == q * k + r;
    PowAdd(g, q * k, r);
    PowMul(g, q, k);
    PowCong(Pow(g, q), 1, k, p);
    PowOfOne(k);
    MulCong(Pow(Pow(g, q), k), 1, Pow(g, r), Pow(g, r), m := p);
  }
}
