/** Shamir secret sharing of one secret (version_1.py).

    A share is a point (x, y) with y = f(x) mod p for the polynomial f
    whose constant term is the secret; reconstruction interpolates the
    first t points at 0. The random coefficients are inputs. */
module ShamirVersion1 {
  import opened ModArith
  import opened Polynomial
  import opened Inverse
  import opened Lagrange

  /** The default modulus, 2^127 - 1. */
  const PRIME: int := 0x7FFF_FFFF_FFFF_FFFF_FFFF_FFFF_FFFF_FFFF

  /** A share (x, y). */
  datatype Point = Point(x: int, y: int)

  /** How many points `range(t)` visits. */
  function Count(t: int): nat
  {
    if t >= 0 then t else 0
  }

  /** The x and the y coordinates of the first t points. */
  function Xs(points: seq<Point>, t: int): (r: seq<int>)
    requires Count(t) <= |points|
    ensures |r| == Count(t)
  {
    seq(Count(t), i requires 0 <= i < Count(t) => points[i].x)
  }

  function Ys(points: seq<Point>, t: int): (r: seq<int>)
    requires Count(t) <= |points|
    ensures |r| == Count(t)
  {
    seq(Count(t), i requires 0 <= i < Count(t) => points[i].y)
  }

  /** What reconstruction from the first t points yields: the Lagrange
      interpolation of those points at 0, reduced modulo p. */
  function Recovered(points: seq<Point>, t: int, p: int): int
    requires p > 0 && Count(t) <= |points|
  {
    Interpolate(Xs(points, t), Ys(points, t), 0, p) % p
  }

  /** The points a reconstruction may be asked for: every difference of
      two of the first t x coordinates is invertible modulo p (otherwise
      Python's `pow(xi - xj, -1, p)` raises). */
  predicate Reconstructible(points: seq<Point>, t: int, p: int)
    requires p > 0
  {
    Count(t) <= |points| && AllInvertible(Xs(points, t), p)
  }

  /** `generate_polynomial`: the coefficients are the secret followed by
      the random coefficients, and share i (from 0) is the point at
      x = i + 1. */
  method GeneratePolynomial(secret: int, n: int, t: int, rand: seq<int>, p: int := PRIME)
    returns (shares: seq<Point>)
    requires p > 0 && |rand| == Count(t - 1)
    ensures |shares| == Count(n)
    ensures forall i :: 0 <= i < |shares| ==>
      shares[i].x == i + 1 && 0 <= shares[i].y < p && shares[i].y == PolyEval([secret] + rand, i + 1) % p
  {
    var coeffs := [secret] + rand;
    shares := [];
    var i := 1;
    while i <= n
      invariant 1 <= i && (n >= 0 ==> i <= n + 1) && (n < 0 ==> i == 1)
      invariant |shares| == i - 1
      invariant forall k :: 0 <= k < |shares| ==>
        shares[k].x == k + 1 && 0 <= shares[k].y < p && shares[k].y == PolyEval(coeffs, k + 1) % p
    {
      var x := i;
      var y := Evaluate(coeffs, x, p);
      shares := shares + [Point(x, y)];
      i := i + 1;
    }
  }

  /** The inner loop of `recover_secret`: `li`, the product of the
      factors `(-xj * pow(xi - xj, -1, p)) % p` over the j != i below t,
      agrees modulo p with the basis value of point i at 0. */
  method BasisValue(shares: seq<Point>, t: int, i: int, p: int) returns (li: int)
    requires p > 0 && Reconstructible(shares, t, p) && 0 <= i < Count(t)
    ensures li % p == BasisAt(Xs(shares, t), i, 0, p) % p
  {
    ghost var xs := Xs(shares, t);
    var xi := shares[i].x;
    li := 1;
    var j := 0;
    while j < t
      invariant 0 <= j <= Count(t)
      invariant li % p == BasisUpTo(xs, i, j, 0, p) % p
    {
      if i != j {
        var xj := shares[j].x;
        assert PairInvertible(xs, i, j, p);
        var inv := ModInverse(xi - xj, p).value;
        InvIsModInverse(xi - xj, p);
        FactorStep(BasisUpTo(xs, i, j, 0, p), li, (-xj) * inv, p);
        li := li * (((-xj) * inv) % p);
      }
      j := j + 1;
    }
  }

  /** `recover_secret`: Lagrange interpolation at 0 over shares[0..t). Each
      factor is reduced modulo p, `li` is not, and the running secret is
      reduced after every term. */
  method RecoverSecret(shares: seq<Point>, t: int, p: int := PRIME) returns (secret: int)
    requires p > 0 && Reconstructible(shares, t, p)
    ensures 0 <= secret < p
    ensures secret == Recovered(shares, t, p)
    ensures t == 1 ==> secret == shares[0].y % p
  {
    ghost var xs, ys := Xs(shares, t), Ys(shares, t);
    ghost var T := Terms(xs, ys, 0, p);
    secret := 0;
    var i := 0;
    while i < t
      invariant 0 <= i <= Count(t)
      invariant secret == Sum(T[..i]) % p
    {
      var yi := shares[i].y;
      var li := BasisValue(shares, t, i, p);
      SecretStep(T, i, secret, yi, li, BasisAt(xs, i, 0, p), p);
      secret := secret + li * yi;
      secret := secret % p;
      i := i + 1;
    }
    assert T[..Count(t)] == T;
    if t == 1 {
      InterpolateSingle(xs, ys, 0, p);
    }
  }

  lemma FactorStep(b: int, li: int, f: int, p: int)
    requires p > 0 && li % p == b % p
    ensures (li * (f % p)) % p == (b * f) % p
  {
    ModOfMod(f, p);
    MulCong(li, b, f % p, f, p);
  }

  lemma SecretStep(t: seq<int>, i: int, secret: int, yi: int, li: int, bi: int, p: int)
    requires p > 0 && 0 <= i < |t| && secret == Sum(t[..i]) % p
    requires li % p == bi % p && t[i] == yi * bi
    ensures (secret + li * yi) % p == Sum(t[..i + 1]) % p
  {
    SumPrefixStep(t, i);
    ModOfMod(Sum(t[..i]), p);
    MulCong(li, bi, yi, yi, p);
    assert li * yi == yi * li && bi * yi == yi * bi;
    AddCong(secret, Sum(t[..i]), li * yi, yi * bi, p);
  }

  /** Reconstruction reads only the first t points. */
  lemma RecoveredReadsPrefix(a: seq<Point>, b: seq<Point>, t: int, p: int)
    requires p > 0 && Count(t) <= |a| && Count(t) <= |b| && a[..Count(t)] == b[..Count(t)]
    ensures Recovered(a, t, p) == Recovered(b, t, p)
  {
    assert forall i :: 0 <= i < Count(t) ==> a[i] == a[..Count(t)][i] && b[i] == b[..Count(t)][i];
    assert Xs(a, t) == Xs(b, t);
    assert Ys(a, t) == Ys(b, t);
  }

  /** Points of the polynomial with coefficients c, at distinct nonzero
      x below a prime p: any t = |c| of them recover c[0] modulo p. */
  lemma RecoverFromPoints(points: seq<Point>, c: seq<int>, t: int, p: int)
    requires Prime(p) && 1 <= t <= |points| && |c| == t
    requires forall i :: 0 <= i < t ==> 0 < points[i].x < p && points[i].y == PolyEval(c, points[i].x) % p
    requires forall i, j :: 0 <= i < j < t ==> points[i].x != points[j].x
    ensures Reconstructible(points, t, p)
    ensures Recovered(points, t, p) == c[0] % p
  {
    var xs, ys := Xs(points, t), Ys(points, t);
    DistinctPointsInvertible(xs, p);
    forall i | 0 <= i < t
      ensures ys[i] % p == PolyEval(c, xs[i]) % p
    {
      ModOfMod(PolyEval(c, points[i].x), p);
    }
    InterpolationAtZero(xs, ys, c, p);
  }

  /** The points `random.sample(shares, t)` picks: the shares at t distinct
      positions. */
  function Select(shares: seq<Point>, picks: seq<int>): (r: seq<Point>)
    requires forall k :: 0 <= k < |picks| ==> 0 <= picks[k] < |shares|
    ensures |r| == |picks|
  {
    seq(|picks|, k requires 0 <= k < |picks| => shares[picks[k]])
  }

  /** The demo: share a secret below p among n parties with threshold t,
      pick any t distinct shares and reconstruct; the secret comes back. */
  method ShareAndRecover(secret: int, n: int, t: int, rand: seq<int>, picks: seq<int>, p: int := PRIME)
    returns (recovered: int)
    requires Prime(p) && 1 <= t <= n < p && |rand| == t - 1 && 0 <= secret < p
    requires |picks| == t && forall k :: 0 <= k < t ==> 0 <= picks[k] < n
    requires forall k, l :: 0 <= k < l < t ==> picks[k] != picks[l]
    ensures recovered == secret
  {
    var shares := GeneratePolynomial(secret, n, t, rand, p);
    var selected := Select(shares, picks);
    RecoverFromPoints(selected, [secret] + rand, t, p);
    recovered := RecoverSecret(selected, t, p);
    ModSmall(secret, p);
  }
}
