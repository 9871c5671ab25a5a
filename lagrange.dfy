/** Lagrange interpolation modulo q, as the three reconstruction routines
    compute it, and the theorem that it recovers a polynomial of degree
    below the number of points.

    Values are exact integers here; every statement about what the scripts
    return is made modulo q. Point i contributes ys[i] times its basis
    value: the product, over every other point x_j, of
    (z - x_j) * inverse(x_i - x_j). The scripts evaluate at z = 0, where
    the factor is (-x_j) * inverse(x_i - x_j). */
module Lagrange {
  import opened ModArith
  import opened Polynomial
  import opened Inverse

  /** The library inverse of d modulo q, wherever there is one (see
      `InvIsModInverse`); where there is none every lemma and method here
      is excluded by `AllInvertible`. */
  function Inv(d: int, q: int): int
    requires q > 0
  {
    SearchInverse(d, q, 0)
  }

  lemma InvIsModInverse(d: int, q: int)
    requires q > 0 && ModInverse(d, q).Some?
    ensures ModInverse(d, q).value == Inv(d, q)
    ensures ((d * Inv(d, q)) % q) == 1 % q
  {
    ModInverseIsSearch(d, q);
  }

  /** Every difference of two points at distinct positions has an inverse
      modulo q, so the inverse calls of the interpolation loops never
      raise. */
  predicate AllInvertible(xs: seq<int>, q: int)
    requires q > 0
  {
    forall i, j :: 0 <= i < |xs| && 0 <= j < |xs| && i != j ==> PairInvertible(xs, i, j, q)
  }

  predicate PairInvertible(xs: seq<int>, i: int, j: int, q: int)
    requires q > 0 && 0 <= i < |xs| && 0 <= j < |xs|
  {
    ModInverse(xs[i] - xs[j], q).Some?
  }

  /** The factor point xj contributes to the basis value of point xi. */
  function Factor(xi: int, xj: int, z: int, q: int): int
    requires q > 0
  {
    (z - xj) * Inv(xi - xj, q)
  }

  /** The product of the factors of the points xs[j] with j < n and
      j != i, in the order of j: the value `li` holds once the inner loop
      has run over range(n). */
  function BasisUpTo(xs: seq<int>, i: int, n: int, z: int, q: int): int
    requires q > 0 && 0 <= i < |xs| && 0 <= n <= |xs|
    decreases n
  {
    if n == 0 then 1
    else if n - 1 == i then BasisUpTo(xs, i, n - 1, z, q)
    else BasisUpTo(xs, i, n - 1, z, q) * Factor(xs[i], xs[n - 1], z, q)
  }

  /** The Lagrange basis value of point i at z. */
  function BasisAt(xs: seq<int>, i: int, z: int, q: int): int
    requires q > 0 && 0 <= i < |xs|
  {
    BasisUpTo(xs, i, |xs|, z, q)
  }

  function Sum(s: seq<int>): int
  {
    if |s| == 0 then 0 else Sum(s[..|s| - 1]) + s[|s| - 1]
  }

  /** The contributions ys[i] * basis(i) of the points, in order. */
  function Terms(xs: seq<int>, ys: seq<int>, z: int, q: int): (r: seq<int>)
    requires q > 0 && |ys| >= |xs|
    ensures |r| == |xs|
  {
    seq(|xs|, i requires 0 <= i < |xs| => ys[i] * BasisAt(xs, i, z, q))
  }

  /** The interpolated value at z, before reduction modulo q. */
  function Interpolate(xs: seq<int>, ys: seq<int>, z: int, q: int): int
    requires q > 0 && |ys| >= |xs|
  {
    Sum(Terms(xs, ys, z, q))
  }

  function PowVec(xs: seq<int>, m: nat): (r: seq<int>)
    ensures |r| == |xs|
  {
    seq(|xs|, i requires 0 <= i < |xs| => Pow(xs[i], m))
  }

  function BasisVec(xs: seq<int>, z: int, q: int): (r: seq<int>)
    requires q > 0
    ensures |r| == |xs|
  {
    seq(|xs|, i requires 0 <= i < |xs| => BasisAt(xs, i, z, q))
  }

  // ---------------------------------------------------------------------
  // Sums

  lemma SumPrefixStep(s: seq<int>, i: int)
    requires 0 <= i < |s|
    ensures Sum(s[..i + 1]) == Sum(s[..i]) + s[i]
  {
    assert s[..i + 1][..i] == s[..i];
  }

  lemma {:induction false} SumFirst(s: seq<int>)
    requires |s| > 0
    ensures Sum(s) == s[0] + Sum(s[1..])
  {
    if |s| > 1 {
      SumFirst(s[..|s| - 1]);
      assert s[..|s| - 1][1..] == s[1..][..|s| - 2];
    }
  }

  /** Sums are linear in their terms. */
  lemma {:induction false} SumLinear(s: seq<int>, u: seq<int>, v: seq<int>, c: int, d: int)
    requires |s| == |u| == |v|
    requires forall i :: 0 <= i < |s| ==> s[i] == c * u[i] + d * v[i]
    ensures Sum(s) == c * Sum(u) + d * Sum(v)
  {
    if |s| > 0 {
      var n := |s| - 1;
      SumLinear(s[..n], u[..n], v[..n], c, d);
      assert c * (Sum(u[..n]) + u[n]) == c * Sum(u[..n]) + c * u[n];
      assert d * (Sum(v[..n]) + v[n]) == d * Sum(v[..n]) + d * v[n];
    }
  }

  /** Termwise congruent sums are congruent. */
  lemma {:induction false} SumCong(s: seq<int>, t: seq<int>, q: int)
    requires q > 0 && |s| == |t|
    requires forall i :: 0 <= i < |s| ==> s[i] % q == t[i] % q
    ensures Sum(s) % q == Sum(t) % q
  {
    if |s| > 0 {
      var n := |s| - 1;
      SumCong(s[..n], t[..n], q);
      AddCong(Sum(s[..n]), Sum(t[..n]), s[n], t[n], q);
    }
  }

  /** The terms c * s_i. */
  function Scaled(s: seq<int>, c: int): (r: seq<int>)
    ensures |r| == |s|
  {
    seq(|s|, i requires 0 <= i < |s| => c * s[i])
  }

  /** The terms c * s_i followed by a final 0. */
  function PadLast(s: seq<int>, c: int): (r: seq<int>)
    ensures |r| == |s| + 1
  {
    seq(|s| + 1, i requires 0 <= i < |s| + 1 => if i < |s| then c * s[i] else 0)
  }

  /** A first 0 followed by the terms c * s_i. */
  function PadFirst(s: seq<int>, c: int): (r: seq<int>)
    ensures |r| == |s| + 1
  {
    seq(|s| + 1, i requires 0 <= i < |s| + 1 => if i >= 1 then c * s[i - 1] else 0)
  }

  /** The termwise differences v_i - w_i. */
  function Minus(v: seq<int>, w: seq<int>): (r: seq<int>)
    requires |v| == |w|
    ensures |r| == |v|
  {
    seq(|v|, i requires 0 <= i < |v| => v[i] - w[i])
  }

  lemma {:induction false} SumScaled(u: seq<int>, c: int)
    ensures Sum(Scaled(u, c)) == c * Sum(u)
  {
    if |u| > 0 {
      var n := |u| - 1;
      assert Scaled(u, c)[..n] == Scaled(u[..n], c);
      SumScaled(u[..n], c);
      assert c * (Sum(u[..n]) + u[n]) == c * Sum(u[..n]) + c * u[n];
    }
  }

  lemma SumPadLast(u: seq<int>, c: int)
    ensures Sum(PadLast(u, c)) == c * Sum(u)
  {
    assert PadLast(u, c)[..|u|] == Scaled(u, c);
    SumScaled(u, c);
  }

  lemma SumPadFirst(u: seq<int>, c: int)
    ensures Sum(PadFirst(u, c)) == c * Sum(u)
  {
    SumFirst(PadFirst(u, c));
    assert PadFirst(u, c)[1..] == Scaled(u, c);
    SumScaled(u, c);
  }

  lemma {:induction false} SumMinus(v: seq<int>, w: seq<int>)
    requires |v| == |w|
    ensures Sum(Minus(v, w)) == Sum(v) - Sum(w)
  {
    if |v| > 0 {
      var n := |v| - 1;
      assert Minus(v, w)[..n] == Minus(v[..n], w[..n]);
      SumMinus(v[..n], w[..n]);
    }
  }

  lemma {:induction false} SumOfZeros(s: seq<int>)
    requires forall i :: 0 <= i < |s| ==> s[i] == 0
    ensures Sum(s) == 0
  {
    if |s| > 0 {
      SumOfZeros(s[..|s| - 1]);
    }
  }

  // ---------------------------------------------------------------------
  // Basis values

  /** The basis product only looks at the points below n. */
  lemma {:induction false} BasisUpToAgree(xs: seq<int>, ys: seq<int>, i: int, n: int, z: int, q: int)
    requires q > 0 && 0 <= i < |xs| && 0 <= i < |ys| && 0 <= n <= |xs| && n <= |ys|
    requires xs[i] == ys[i] && forall j :: 0 <= j < n ==> xs[j] == ys[j]
    ensures BasisUpTo(xs, i, n, z, q) == BasisUpTo(ys, i, n, z, q)
    decreases n
  {
    if n > 0 {
      BasisUpToAgree(xs, ys, i, n - 1, z, q);
    }
  }

  /** Without the first point, the product over the others loses the
      factor of xs[0]. */
  lemma {:induction false} BasisUpToShift(xs: seq<int>, i: int, n: int, z: int, q: int)
    requires q > 0 && 1 <= i < |xs| && 1 <= n <= |xs|
    ensures BasisUpTo(xs, i, n, z, q) == Factor(xs[i], xs[0], z, q) * BasisUpTo(xs[1..], i - 1, n - 1, z, q)
    decreases n
  {
    var f, t := Factor(xs[i], xs[0], z, q), xs[1..];
    assert t[i - 1] == xs[i];
    if n > 1 {
      BasisUpToShift(xs, i, n - 1, z, q);
      var p := BasisUpTo(t, i - 1, n - 2, z, q);
      if n - 1 != i {
        var g := Factor(xs[i], xs[n - 1], z, q);
        assert t[n - 2] == xs[n - 1];
        assert BasisUpTo(xs, i, n, z, q) == (f * p) * g;
        assert BasisUpTo(t, i - 1, n - 1, z, q) == p * g;
        assert (f * p) * g == f * (p * g);
      }
    }
  }

  /** Multiplying a factor by its denominator x_i - x_j leaves z - x_j. */
  lemma FactorCancel(xi: int, y: int, z: int, q: int)
    requires q > 0 && ModInverse(xi - y, q).Some?
    ensures ((xi - y) * Factor(xi, y, z, q)) % q == (z - y) % q
  {
    var w := Inv(xi - y, q);
    InvIsModInverse(xi - y, q);
    assert (xi - y) * Factor(xi, y, z, q) == (z - y) * ((xi - y) * w);
    MulCong(z - y, z - y, (xi - y) * w, 1, q);
  }

  /** If x = y * f and d * f is congruent to w, then d * x is congruent
      to w * y. */
  lemma ScaleCong(x: int, y: int, d: int, f: int, w: int, q: int)
    requires q > 0 && x == y * f && (d * f) % q == w % q
    ensures (d * x) % q == (w * y) % q
  {
    assert d * x == y * (d * f);
    MulCong(y, y, d * f, w, q);
    assert y * w == w * y;
  }

  lemma BasisAtDropLast(xs: seq<int>, i: int, z: int, q: int)
    requires q > 0 && 0 <= i < |xs| - 1
    ensures BasisAt(xs, i, z, q) == BasisAt(xs[..|xs| - 1], i, z, q) * Factor(xs[i], xs[|xs| - 1], z, q)
  {
    BasisUpToAgree(xs, xs[..|xs| - 1], i, |xs| - 1, z, q);
  }

  lemma BasisAtDropFirst(xs: seq<int>, i: int, z: int, q: int)
    requires q > 0 && 1 <= i < |xs|
    ensures BasisAt(xs, i, z, q) == BasisAt(xs[1..], i - 1, z, q) * Factor(xs[i], xs[0], z, q)
  {
    BasisUpToShift(xs, i, |xs|, z, q);
  }

  /** Removing the last point: basis(i) times (x_i - a) is, modulo q,
      (z - a) times the basis of i among the remaining points. */
  lemma DropLastBasis(xs: seq<int>, i: int, z: int, q: int)
    requires q > 0 && AllInvertible(xs, q) && 0 <= i < |xs| - 1
    ensures ((xs[i] - xs[|xs| - 1]) * BasisAt(xs, i, z, q)) % q
         == ((z - xs[|xs| - 1]) * BasisAt(xs[..|xs| - 1], i, z, q)) % q
  {
    var a, xi := xs[|xs| - 1], xs[i];
    BasisAtDropLast(xs, i, z, q);
    assert PairInvertible(xs, i, |xs| - 1, q);
    FactorCancel(xi, a, z, q);
    ScaleCong(BasisAt(xs, i, z, q), BasisAt(xs[..|xs| - 1], i, z, q), xi - a, Factor(xi, a, z, q), z - a, q);
  }

  /** Removing the first point, in the same way. */
  lemma DropFirstBasis(xs: seq<int>, i: int, z: int, q: int)
    requires q > 0 && AllInvertible(xs, q) && 1 <= i < |xs|
    ensures ((xs[i] - xs[0]) * BasisAt(xs, i, z, q)) % q
         == ((z - xs[0]) * BasisAt(xs[1..], i - 1, z, q)) % q
  {
    var b, xi := xs[0], xs[i];
    BasisAtDropFirst(xs, i, z, q);
    assert PairInvertible(xs, i, 0, q);
    FactorCancel(xi, b, z, q);
    ScaleCong(BasisAt(xs, i, z, q), BasisAt(xs[1..], i - 1, z, q), xi - b, Factor(xi, b, z, q), z - b, q);
  }

  lemma AllInvertibleSub(xs: seq<int>, q: int)
    requires q > 0 && AllInvertible(xs, q) && |xs| > 0
    ensures AllInvertible(xs[..|xs| - 1], q) && AllInvertible(xs[1..], q)
  {
    var front, back := xs[..|xs| - 1], xs[1..];
    forall i, j | 0 <= i < |front| && 0 <= j < |front| && i != j
      ensures PairInvertible(front, i, j, q)
    {
      assert PairInvertible(xs, i, j, q);
      assert front[i] - front[j] == xs[i] - xs[j];
    }
    forall i, j | 0 <= i < |back| && 0 <= j < |back| && i != j
      ensures PairInvertible(back, i, j, q)
    {
      assert PairInvertible(xs, i + 1, j + 1, q);
      assert back[i] - back[j] == xs[i + 1] - xs[j + 1];
    }
  }

  /** If e * s is congruent to e and e is invertible, s is congruent to 1. */
  lemma CancelInvertible(e: int, s: int, q: int)
    requires q > 0 && ModInverse(e, q).Some? && (e * s) % q == e % q
    ensures s % q == 1 % q
  {
    var w := Inv(e, q);
    InvIsModInverse(e, q);
    MulCong(s, s, 1, e * w, q);
    assert s * (e * w) == (e * s) * w;
    MulCong(e * s, e, w, w, q);
  }

  lemma NevilleArith(xi: int, a: int, b: int, bi: int, v: int, w: int, q: int)
    requires q > 0 && ((xi - a) * bi) % q == v % q && ((xi - b) * bi) % q == w % q
    ensures ((b - a) * bi) % q == (v - w) % q
  {
    assert (b - a) * bi == (xi - a) * bi - (xi - b) * bi;
    SubCong((xi - a) * bi, v, (xi - b) * bi, w, q);
  }

  /** One term of Neville's recurrence: with a the last point and b the
      first, (b - a) * basis(i) is congruent to
      (z - a) * basis(i without a) - (z - b) * basis(i without b). */
  lemma NevilleTerm(xs: seq<int>, i: int, z: int, q: int)
    requires q > 0 && AllInvertible(xs, q) && |xs| >= 2 && 0 <= i < |xs|
    ensures ((xs[0] - xs[|xs| - 1]) * BasisAt(xs, i, z, q)) % q
         == ((if i < |xs| - 1 then (z - xs[|xs| - 1]) * BasisAt(xs[..|xs| - 1], i, z, q) else 0)
           - (if i >= 1 then (z - xs[0]) * BasisAt(xs[1..], i - 1, z, q) else 0)) % q
  {
    var k, a, b, xi := |xs|, xs[|xs| - 1], xs[0], xs[i];
    var bi := BasisAt(xs, i, z, q);
    var v := if i < k - 1 then (z - a) * BasisAt(xs[..k - 1], i, z, q) else 0;
    var w := if i >= 1 then (z - b) * BasisAt(xs[1..], i - 1, z, q) else 0;
    if i < k - 1 {
      DropLastBasis(xs, i, z, q);
    } else {
      assert xi - a == 0;
      assert (xi - a) * bi == 0 * bi;
    }
    if i >= 1 {
      DropFirstBasis(xs, i, z, q);
    } else {
      assert xi - b == 0;
      assert (xi - b) * bi == 0 * bi;
    }
    NevilleArith(xi, a, b, bi, v, w, q);
  }

  /** From the Neville sums: (b - a) * S is congruent to b - a when the two
      shorter partitions are congruent to 1. */
  lemma NevilleTotal(a: int, b: int, z: int, s: int, s1: int, s2: int, q: int)
    requires q > 0 && s1 % q == 1 % q && s2 % q == 1 % q
    requires ((b - a) * s) % q == ((z - a) * s1 - (z - b) * s2) % q
    ensures ((b - a) * s) % q == (b - a) % q
  {
    MulCong(z - a, z - a, s1, 1, q);
    MulCong(z - b, z - b, s2, 1, q);
    SubCong((z - a) * s1, z - a, (z - b) * s2, z - b, q);
  }

  /** The right-hand sides of Neville's relation, one per entry. */
  function NevilleRhs(s1: seq<int>, s2: seq<int>, a: int, b: int, z: int): (r: seq<int>)
    requires |s1| == |s2|
    ensures |r| == |s1| + 1
  {
    Minus(PadLast(s1, z - a), PadFirst(s2, z - b))
  }

  /** Neville's relation for one entry of the basis vector. */
  lemma NevilleEntry(xs: seq<int>, i: int, z: int, q: int)
    requires q > 0 && AllInvertible(xs, q) && |xs| >= 2 && 0 <= i < |xs|
    ensures Scaled(BasisVec(xs, z, q), xs[0] - xs[|xs| - 1])[i] % q
         == NevilleRhs(BasisVec(xs[..|xs| - 1], z, q), BasisVec(xs[1..], z, q), xs[|xs| - 1], xs[0], z)[i] % q
  {
    var k, a, b := |xs|, xs[|xs| - 1], xs[0];
    NevilleTerm(xs, i, z, q);
    var B, B1, B2 := BasisVec(xs, z, q), BasisVec(xs[..k - 1], z, q), BasisVec(xs[1..], z, q);
    assert B[i] == BasisAt(xs, i, z, q);
    assert Scaled(B, b - a)[i] == (b - a) * B[i];
    var v := if i < k - 1 then (z - a) * BasisAt(xs[..k - 1], i, z, q) else 0;
    var w := if i >= 1 then (z - b) * BasisAt(xs[1..], i - 1, z, q) else 0;
    if i < k - 1 {
      assert B1[i] == BasisAt(xs[..k - 1], i, z, q);
    }
    if i >= 1 {
      assert B2[i - 1] == BasisAt(xs[1..], i - 1, z, q);
    }
    assert PadLast(B1, z - a)[i] == v;
    assert PadFirst(B2, z - b)[i] == w;
  }

  lemma PartitionSingle(xs: seq<int>, z: int, q: int)
    requires q > 0 && |xs| == 1
    ensures Sum(BasisVec(xs, z, q)) == 1
  {
    var B := BasisVec(xs, z, q);
    assert B[0] == 1;
    assert B[..0] == [];
  }

  lemma NevilleAssemble(st: int, sd: int, sb: int, sp: int, sf: int, s1: int, s2: int,
                        a: int, b: int, z: int, q: int)
    requires q > 0 && st % q == sd % q && st == (b - a) * sb && sd == sp - sf
    requires sp == (z - a) * s1 && sf == (z - b) * s2
    ensures ((b - a) * sb) % q == ((z - a) * s1 - (z - b) * s2) % q
  {
  }

  /** The sums of the two sides of Neville's relation, written out. */
  lemma NevilleSumCore(s: seq<int>, s1: seq<int>, s2: seq<int>, a: int, b: int, z: int, q: int)
    requires q > 0 && |s1| == |s2| && |s| == |s1| + 1
    requires Sum(Scaled(s, b - a)) % q == Sum(NevilleRhs(s1, s2, a, b, z)) % q
    ensures ((b - a) * Sum(s)) % q == ((z - a) * Sum(s1) - (z - b) * Sum(s2)) % q
  {
    var T, P, F := Scaled(s, b - a), PadLast(s1, z - a), PadFirst(s2, z - b);
    SumScaled(s, b - a);
    SumMinus(P, F);
    SumPadLast(s1, z - a);
    SumPadFirst(s2, z - b);
    NevilleAssemble(Sum(T), Sum(Minus(P, F)), Sum(s), Sum(P), Sum(F), Sum(s1), Sum(s2), a, b, z, q);
  }

  /** Neville's relation summed over all entries: with a the last point
      and b the first, (b - a) * sum(basis) is congruent to
      (z - a) * sum(basis without a) - (z - b) * sum(basis without b). */
  lemma NevilleSum(xs: seq<int>, z: int, q: int)
    requires q > 0 && AllInvertible(xs, q) && |xs| >= 2
    ensures ((xs[0] - xs[|xs| - 1]) * Sum(BasisVec(xs, z, q))) % q
         == ((z - xs[|xs| - 1]) * Sum(BasisVec(xs[..|xs| - 1], z, q))
           - (z - xs[0]) * Sum(BasisVec(xs[1..], z, q))) % q
  {
    var k, a, b := |xs|, xs[|xs| - 1], xs[0];
    var B, B1, B2 := BasisVec(xs, z, q), BasisVec(xs[..k - 1], z, q), BasisVec(xs[1..], z, q);
    forall i | 0 <= i < k
      ensures Scaled(B, b - a)[i] % q == NevilleRhs(B1, B2, a, b, z)[i] % q
    {
      NevilleEntry(xs, i, z, q);
    }
    SumCong(Scaled(B, b - a), NevilleRhs(B1, B2, a, b, z), q);
    NevilleSumCore(B, B1, B2, a, b, z, q);
  }

  /** Neville's step: if the basis values without the last point and those
      without the first point each sum to 1, so do the basis values of all
      the points. */
  lemma NevilleStep(xs: seq<int>, z: int, q: int)
    requires q > 0 && AllInvertible(xs, q) && |xs| >= 2
    requires Sum(BasisVec(xs[..|xs| - 1], z, q)) % q == 1 % q
    requires Sum(BasisVec(xs[1..], z, q)) % q == 1 % q
    ensures Sum(BasisVec(xs, z, q)) % q == 1 % q
  {
    var k, a, b := |xs|, xs[|xs| - 1], xs[0];
    var s, s1, s2 := Sum(BasisVec(xs, z, q)), Sum(BasisVec(xs[..k - 1], z, q)), Sum(BasisVec(xs[1..], z, q));
    NevilleSum(xs, z, q);
    NevilleTotal(a, b, z, s, s1, s2, q);
    assert PairInvertible(xs, 0, k - 1, q);
    CancelInvertible(b - a, s, q);
  }

  /** The basis values sum to 1 modulo q (the interpolation of the
      constant polynomial 1). */
  lemma {:induction false} PartitionOfUnity(xs: seq<int>, z: int, q: int)
    requires q > 0 && AllInvertible(xs, q) && |xs| >= 1
    ensures Sum(BasisVec(xs, z, q)) % q == 1 % q
    decreases |xs|
  {
    if |xs| == 1 {
      PartitionSingle(xs, z, q);
    } else {
      AllInvertibleSub(xs, q);
      PartitionOfUnity(xs[..|xs| - 1], z, q);
      PartitionOfUnity(xs[1..], z, q);
      NevilleStep(xs, z, q);
    }
  }

  // ---------------------------------------------------------------------
  // Monomials

  /** The terms x_i^m * basis(i). */
  function Moments(xs: seq<int>, m: nat, z: int, q: int): (r: seq<int>)
    requires q > 0
    ensures |r| == |xs|
  {
    seq(|xs|, i requires 0 <= i < |xs| => Pow(xs[i], m) * BasisAt(xs, i, z, q))
  }

  /** The terms (x_i - a) * s_i. */
  function Shifted(xs: seq<int>, a: int, s: seq<int>): (r: seq<int>)
    requires |s| == |xs|
    ensures |r| == |xs|
  {
    seq(|xs|, i requires 0 <= i < |xs| => (xs[i] - a) * s[i])
  }

  lemma SplitArith(x: int, a: int, p: int, bb: int)
    ensures (x * p) * bb == 1 * ((x - a) * (p * bb)) + a * (p * bb)
  {
    assert (x * p) * bb == x * (p * bb);
    assert x * (p * bb) == (x - a) * (p * bb) + a * (p * bb);
  }

  /** x^m * basis(i) = (x_i - a) * x^(m-1) * basis(i) + a * x^(m-1) * basis(i). */
  lemma MomentSplit(xs: seq<int>, m: nat, a: int, z: int, q: int)
    requires q > 0 && m >= 1
    ensures Sum(Moments(xs, m, z, q))
         == 1 * Sum(Shifted(xs, a, Moments(xs, m - 1, z, q))) + a * Sum(Moments(xs, m - 1, z, q))
  {
    var M, A := Moments(xs, m, z, q), Moments(xs, m - 1, z, q);
    var E := Shifted(xs, a, A);
    forall i | 0 <= i < |xs|
      ensures M[i] == 1 * E[i] + a * A[i]
    {
      SplitArith(xs[i], a, Pow(xs[i], m - 1), BasisAt(xs, i, z, q));
    }
    SumLinear(M, E, A, 1, a);
  }

  lemma MomentEntryArith(p: int, d: int, bi: int, w: int, bf: int, q: int)
    requires q > 0 && (d * bi) % q == (w * bf) % q
    ensures (d * (p * bi)) % q == (w * (p * bf)) % q
  {
    MulCong(p, p, d * bi, w * bf, q);
    assert d * (p * bi) == p * (d * bi);
    assert w * (p * bf) == p * (w * bf);
  }

  /** Removing the last point a from one shifted moment term. */
  lemma MomentEntry(xs: seq<int>, m: nat, i: int, z: int, q: int)
    requires q > 0 && AllInvertible(xs, q) && m >= 1 && |xs| >= 2 && 0 <= i < |xs|
    ensures Shifted(xs, xs[|xs| - 1], Moments(xs, m - 1, z, q))[i] % q
         == PadLast(Moments(xs[..|xs| - 1], m - 1, z, q), z - xs[|xs| - 1])[i] % q
  {
    var k, a := |xs|, xs[|xs| - 1];
    var A, F := Moments(xs, m - 1, z, q), Moments(xs[..k - 1], m - 1, z, q);
    var p, bi := Pow(xs[i], m - 1), BasisAt(xs, i, z, q);
    assert A[i] == p * bi;
    assert Shifted(xs, a, A)[i] == (xs[i] - a) * (p * bi);
    if i < k - 1 {
      var bf := BasisAt(xs[..k - 1], i, z, q);
      DropLastBasis(xs, i, z, q);
      assert xs[..k - 1][i] == xs[i];
      assert F[i] == p * bf;
      MomentEntryArith(p, xs[i] - a, bi, z - a, bf, q);
    } else {
      assert xs[i] - a == 0;
      assert (xs[i] - a) * (p * bi) == 0 * (p * bi);
    }
  }

  lemma MomentArith(s: int, e: int, g: int, sa: int, sf: int, a: int, z: int, m: nat, q: int)
    requires q > 0 && m >= 1 && s == 1 * e + a * sa && e % q == g % q && g == (z - a) * sf
    requires sa % q == Pow(z, m - 1) % q && sf % q == Pow(z, m - 1) % q
    ensures s % q == Pow(z, m) % q
  {
    var pz := Pow(z, m - 1);
    MulCong(z - a, z - a, sf, pz, q);
    MulCong(a, a, sa, pz, q);
    AddCong(e, (z - a) * pz, a * sa, a * pz, q);
    assert (z - a) * pz + a * pz == z * pz;
  }

  lemma MomentsZero(xs: seq<int>, z: int, q: int)
    requires q > 0
    ensures Moments(xs, 0, z, q) == BasisVec(xs, z, q)
  {
  }

  /** Removing the last point a from every shifted moment term, summed. */
  lemma MomentCongSum(xs: seq<int>, m: nat, z: int, q: int)
    requires q > 0 && AllInvertible(xs, q) && m >= 1 && |xs| >= 2
    ensures Sum(Shifted(xs, xs[|xs| - 1], Moments(xs, m - 1, z, q))) % q
         == Sum(PadLast(Moments(xs[..|xs| - 1], m - 1, z, q), z - xs[|xs| - 1])) % q
  {
    var k, a := |xs|, xs[|xs| - 1];
    var E := Shifted(xs, a, Moments(xs, m - 1, z, q));
    var G := PadLast(Moments(xs[..k - 1], m - 1, z, q), z - a);
    forall i | 0 <= i < k
      ensures E[i] % q == G[i] % q
    {
      MomentEntry(xs, m, i, z, q);
    }
    SumCong(E, G, q);
  }

  /** The step from m - 1 to m: with a the last point,
      x^m = (x - a) * x^(m-1) + a * x^(m-1). */
  lemma MonomialStep(xs: seq<int>, m: nat, z: int, q: int)
    requires q > 0 && AllInvertible(xs, q) && 1 <= m < |xs|
    requires Sum(Moments(xs, m - 1, z, q)) % q == Pow(z, m - 1) % q
    requires Sum(Moments(xs[..|xs| - 1], m - 1, z, q)) % q == Pow(z, m - 1) % q
    ensures Sum(Moments(xs, m, z, q)) % q == Pow(z, m) % q
  {
    var k, a := |xs|, xs[|xs| - 1];
    var A, F := Moments(xs, m - 1, z, q), Moments(xs[..k - 1], m - 1, z, q);
    var E, G := Shifted(xs, a, A), PadLast(F, z - a);
    MomentCongSum(xs, m, z, q);
    SumPadLast(F, z - a);
    MomentSplit(xs, m, a, z, q);
    MomentArith(Sum(Moments(xs, m, z, q)), Sum(E), Sum(G), Sum(A), Sum(F), a, z, m, q);
  }

  /** Interpolating the monomial z^m, for m below the number of points,
      gives z^m modulo q. */
  lemma {:induction false} MonomialIdentity(xs: seq<int>, m: nat, z: int, q: int)
    requires q > 0 && AllInvertible(xs, q) && m < |xs|
    ensures Sum(Moments(xs, m, z, q)) % q == Pow(z, m) % q
    decreases |xs|, m
  {
    if m == 0 {
      MomentsZero(xs, z, q);
      PartitionOfUnity(xs, z, q);
    } else {
      AllInvertibleSub(xs, q);
      MonomialIdentity(xs, m - 1, z, q);
      MonomialIdentity(xs[..|xs| - 1], m - 1, z, q);
      MonomialStep(xs, m, z, q);
    }
  }

  // ---------------------------------------------------------------------
  // The interpolation theorem

  /** The terms c(x_i) * basis(i) for a coefficient list c. */
  function EvalTerms(xs: seq<int>, c: seq<int>, z: int, q: int): (r: seq<int>)
    requires q > 0
    ensures |r| == |xs|
  {
    seq(|xs|, i requires 0 <= i < |xs| => PolyEval(c, xs[i]) * BasisAt(xs, i, z, q))
  }

  lemma EvalTermsAppend(xs: seq<int>, c: seq<int>, d: int, z: int, q: int)
    requires q > 0
    ensures Sum(EvalTerms(xs, c + [d], z, q))
         == 1 * Sum(EvalTerms(xs, c, z, q)) + d * Sum(Moments(xs, |c|, z, q))
  {
    var S, U, M := EvalTerms(xs, c + [d], z, q), EvalTerms(xs, c, z, q), Moments(xs, |c|, z, q);
    forall i | 0 <= i < |xs|
      ensures S[i] == 1 * U[i] + d * M[i]
    {
      var x, bi := xs[i], BasisAt(xs, i, z, q);
      PolyEvalAppend(c, d, x);
      assert (PolyEval(c, x) + d * Pow(x, |c|)) * bi == PolyEval(c, x) * bi + d * (Pow(x, |c|) * bi);
    }
    SumLinear(S, U, M, 1, d);
  }

  lemma EvalTermsArith(s: int, u: int, mm: int, d: int, pu: int, pz: int, q: int)
    requires q > 0 && s == 1 * u + d * mm && u % q == pu % q && mm % q == pz % q
    ensures s % q == (pu + d * pz) % q
  {
    MulCong(d, d, mm, pz, q);
    AddCong(u, pu, d * mm, d * pz, q);
  }

  /** Summing c(x_i) * basis(i) gives c(z) modulo q when c has fewer
      coefficients than there are points. */
  lemma {:induction false} EvalTermsIdentity(xs: seq<int>, c: seq<int>, z: int, q: int)
    requires q > 0 && AllInvertible(xs, q) && |c| <= |xs|
    ensures Sum(EvalTerms(xs, c, z, q)) % q == PolyEval(c, z) % q
    decreases |c|
  {
    var S := EvalTerms(xs, c, z, q);
    if |c| == 0 {
      SumOfZeros(S);
    } else {
      var n := |c| - 1;
      var c', d := c[..n], c[n];
      assert c == c' + [d];
      EvalTermsIdentity(xs, c', z, q);
      MonomialIdentity(xs, n, z, q);
      EvalTermsAppend(xs, c', d, z, q);
      PolyEvalAppend(c', d, z);
      EvalTermsArith(Sum(S), Sum(EvalTerms(xs, c', z, q)), Sum(Moments(xs, n, z, q)), d,
        PolyEval(c', z), Pow(z, n), q);
    }
  }

  /** Lagrange interpolation through points of a polynomial with at most
      as many coefficients as points gives the polynomial's value at z,
      modulo q. */
  lemma InterpolationTheorem(xs: seq<int>, ys: seq<int>, c: seq<int>, z: int, q: int)
    requires q > 0 && AllInvertible(xs, q) && |ys| >= |xs| && |c| <= |xs|
    requires forall i :: 0 <= i < |xs| ==> ys[i] % q == PolyEval(c, xs[i]) % q
    ensures Interpolate(xs, ys, z, q) % q == PolyEval(c, z) % q
  {
    var T, S := Terms(xs, ys, z, q), EvalTerms(xs, c, z, q);
    forall i | 0 <= i < |xs|
      ensures T[i] % q == S[i] % q
    {
      var bi := BasisAt(xs, i, z, q);
      MulCong(ys[i], PolyEval(c, xs[i]), bi, bi, q);
    }
    SumCong(T, S, q);
    EvalTermsIdentity(xs, c, z, q);
  }

  /** At z = 0 the interpolation recovers the constant coefficient. */
  lemma InterpolationAtZero(xs: seq<int>, ys: seq<int>, c: seq<int>, q: int)
    requires q > 0 && AllInvertible(xs, q) && |ys| >= |xs| && 1 <= |c| <= |xs|
    requires forall i :: 0 <= i < |xs| ==> ys[i] % q == PolyEval(c, xs[i]) % q
    ensures Interpolate(xs, ys, 0, q) % q == c[0] % q
  {
    InterpolationTheorem(xs, ys, c, 0, q);
    PolyEvalAtZero(c);
  }

  /** Distinct points strictly between 0 and a prime q are pairwise
      invertible, which is how the scripts choose their share indices. */
  lemma DistinctPointsInvertible(xs: seq<int>, q: int)
    requires Prime(q)
    requires forall i :: 0 <= i < |xs| ==> 0 < xs[i] < q
    requires forall i, j :: 0 <= i < j < |xs| ==> xs[i] != xs[j]
    ensures AllInvertible(xs, q)
  {
    forall i, j | 0 <= i < |xs| && 0 <= j < |xs| && i != j
      ensures PairInvertible(xs, i, j, q)
    {
      var d := xs[i] - xs[j];
      assert d != 0 && -q < d < q;
      if d > 0 {
        ModSmall(d, q);
      } else {
        ModShift(d, 1, q);
        ModSmall(d + q, q);
      }
      PrimeInvertible(d, q);
    }
  }

  /** A single point interpolates to its own value, at every z. */
  lemma InterpolateSingle(xs: seq<int>, ys: seq<int>, z: int, q: int)
    requires q > 0 && |xs| == 1 && |ys| >= 1
    ensures Interpolate(xs, ys, z, q) == ys[0]
  {
    var T := Terms(xs, ys, z, q);
    assert BasisUpTo(xs, 0, 0, z, q) == 1;
    assert BasisAt(xs, 0, z, q) == BasisUpTo(xs, 0, 0, z, q);
    assert T[0] == ys[0] * 1;
    assert T[..|T| - 1] == [];
    assert Sum(T) == Sum(T[..|T| - 1]) + T[|T| - 1];
  }
}
