/** Shamir secret sharing of two secrets at once (project.py).

    Both secrets are shared at the same points x = 1..n with their own
    polynomials, and each list is reconstructed on its own by the same
    interpolation that version_1.py uses (its inner `lagrange_interpolate`
    is that code, and is modelled by ShamirVersion1.RecoverSecret). */
module ShamirProject {
  import opened ModArith
  import opened Polynomial
  import opened Inverse
  import opened ShamirVersion1

  /** `generate_polynomial`: two share lists built in one loop, list k
      holding the points of the polynomial [secret_k] + rand_k. */
  method GeneratePolynomial(secret1: int, secret2: int, n: int, t: int, rand1: seq<int>, rand2: seq<int>,
                            p: int := PRIME)
    returns (shares: seq<seq<Point>>)
    requires p > 0 && |rand1| == Count(t - 1) && |rand2| == Count(t - 1)
    ensures |shares| == 2 && |shares[0]| == Count(n) && |shares[1]| == Count(n)
    ensures forall i :: 0 <= i < Count(n) ==>
      shares[0][i].x == i + 1 && shares[1][i].x == i + 1
      && 0 <= shares[0][i].y < p && shares[0][i].y == PolyEval([secret1] + rand1, i + 1) % p
      && 0 <= shares[1][i].y < p && shares[1][i].y == PolyEval([secret2] + rand2, i + 1) % p
  {
    var coeffs1 := [secret1] + rand1;
    var coeffs2 := [secret2] + rand2;
    var shares1: seq<Point>, shares2: seq<Point> := [], [];
    var i := 1;
    while i <= n
      invariant 1 <= i && (n >= 0 ==> i <= n + 1) && (n < 0 ==> i == 1)
      invariant |shares1| == i - 1 && |shares2| == i - 1
      invariant forall k :: 0 <= k < i - 1 ==>
        shares1[k].x == k + 1 && shares2[k].x == k + 1
        && 0 <= shares1[k].y < p && shares1[k].y == PolyEval(coeffs1, k + 1) % p
        && 0 <= shares2[k].y < p && shares2[k].y == PolyEval(coeffs2, k + 1) % p
    {
      var x := i;
      var y1 := Evaluate(coeffs1, x, p);
      var y2 := Evaluate(coeffs2, x, p);
      shares1 := shares1 + [Point(x, y1)];
      shares2 := shares2 + [Point(x, y2)];
      i := i + 1;
    }
    shares := [shares1, shares2];
  }

  /** `recover_secret`: the first t points of each list interpolated at 0;
      output k depends on list k alone. */
  method RecoverSecret(shares: seq<seq<Point>>, t: int, p: int := PRIME) returns (secrets: seq<int>)
    requires p > 0 && |shares| >= 2
    requires Reconstructible(shares[0], t, p) && Reconstructible(shares[1], t, p)
    ensures secrets == [Recovered(shares[0], t, p), Recovered(shares[1], t, p)]
    ensures 0 <= secrets[0] < p && 0 <= secrets[1] < p
    ensures t == 1 ==> secrets == [shares[0][0].y % p, shares[1][0].y % p]
  {
    var secret1 := ShamirVersion1.RecoverSecret(shares[0], t, p);
    var secret2 := ShamirVersion1.RecoverSecret(shares[1], t, p);
    secrets := [secret1, secret2];
  }

  /** The demo's third attempt: t distinct shares picked from each list
      give back both secrets, when they lie below p. */
  method ShareAndRecoverBoth(secret1: int, secret2: int, n: int, t: int, rand1: seq<int>, rand2: seq<int>,
                             picks1: seq<int>, picks2: seq<int>, p: int := PRIME)
    returns (secrets: seq<int>)
    requires Prime(p) && 1 <= t <= n < p && |rand1| == t - 1 && |rand2| == t - 1
    requires 0 <= secret1 < p && 0 <= secret2 < p
    requires |picks1| == t && forall k :: 0 <= k < t ==> 0 <= picks1[k] < n
    requires |picks2| == t && forall k :: 0 <= k < t ==> 0 <= picks2[k] < n
    requires forall k, l :: 0 <= k < l < t ==> picks1[k] != picks1[l] && picks2[k] != picks2[l]
    ensures secrets == [secret1, secret2]
  {
    var shares := GeneratePolynomial(secret1, secret2, n, t, rand1, rand2, p);
    var selected := [Select(shares[0], picks1), Select(shares[1], picks2)];
    RecoverFromPoints(selected[0], [secret1] + rand1, t, p);
    RecoverFromPoints(selected[1], [secret2] + rand2, t, p);
    secrets := RecoverSecret(selected, t, p);
    ModSmall(secret1, p);
    ModSmall(secret2, p);
  }
}
