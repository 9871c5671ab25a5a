/** Pedersen-style verifiable secret sharing (vss_basic.py).

    The dealer shares secret_s with the polynomial f (coefficients
    coeffsF, f(0) = secret_s) and hides it with a second polynomial g
    (coefficients coeffsG, g(0) = secret_t). Share x is (x, f(x) mod q,
    g(x) mod q). Coefficient i is committed as g^coeffsF[i] * h^coeffsG[i]
    mod p, and a share is accepted when its own commitment equals the
    product of the coefficient commitments raised to x^i.

    The group is given: p, q, g, h are parameters, and the subgroup facts
    the setup establishes (g^q = 1 and h^q = 1 modulo p) are hypotheses of
    the lemmas that need them. The random coefficients are inputs. */
module VssBasic {
  import opened ModArith
  import opened Polynomial
  import opened Inverse
  import opened Lagrange

  /** A share (x, f(x) mod q, g(x) mod q). */
  datatype Share = Share(x: nat, fx: nat, gx: nat)

  // ---------------------------------------------------------------------
  // Commitments

  /** `commitment(a, b, g, h, p)`: g^a * h^b reduced modulo p, each power
      taken with the three-argument `pow`. */
  function Commitment(a: nat, b: nat, g: int, h: int, p: int): (r: int)
    requires p > 0
    ensures 0 <= r < p
    ensures r == (Pow(g, a) * Pow(h, b)) % p
  {
    ModProductOfRemainders(Pow(g, a), Pow(h, b), p);
    (ModPow(g, a, p) * ModPow(h, b, p)) % p
  }

  /** The list of coefficient commitments that `verify_shares` rebuilds:
      one per index in range(t). */
  function Commitments(cf: seq<nat>, cg: seq<nat>, g: int, h: int, p: int, t: int): (r: seq<int>)
    requires p > 0 && t <= |cf| && t <= |cg|
    ensures |r| == if t >= 0 then t else 0
  {
    var k := if t >= 0 then t else 0;
    seq(k, i requires 0 <= i < k => Commitment(cf[i], cg[i], g, h, p))
  }

  /** The value of `rhs` once the inner loop of `verify_shares` has run
      over the commitments cs: the product of cs[j]^(x^j) modulo p,
      reduced after every factor. */
  function RhsProduct(cs: seq<int>, x: nat, p: int): int
    requires p > 0
  {
    if |cs| == 0 then 1
    else (RhsProduct(cs[..|cs| - 1], x, p) * ModPow(cs[|cs| - 1], NatPow(x, |cs| - 1), p)) % p
  }

  /** The test `verify_shares` applies to one share. */
  predicate ShareVerifies(s: Share, cs: seq<int>, g: int, h: int, p: int)
    requires p > 0
  {
    Commitment(s.fx, s.gx, g, h, p) == RhsProduct(cs, s.x, p)
  }

  // ---------------------------------------------------------------------
  // The dealer

  /** `generate_shares`: the coefficient lists are the secret followed by
      the random coefficients, and share i (from 0) is taken at x = i + 1.
      The modulus q is the subgroup order; the script's unused parameter
      p is omitted. */
  method GenerateShares(secretS: nat, secretT: nat, n: int, t: int, q: int, randF: seq<nat>, randG: seq<nat>)
    returns (shares: seq<Share>, coeffsF: seq<nat>, coeffsG: seq<nat>)
    requires q > 0
    requires |randF| == |randG| == if t >= 1 then t - 1 else 0
    ensures coeffsF == [secretS] + randF && coeffsG == [secretT] + randG
    ensures |coeffsF| == |coeffsG| == if t >= 1 then t else 1
    ensures |shares| == if n >= 0 then n else 0
    ensures forall i :: 0 <= i < |shares| ==>
      shares[i].x == i + 1 && shares[i].fx < q && shares[i].gx < q
      && shares[i].fx == PolyEval(coeffsF, i + 1) % q && shares[i].gx == PolyEval(coeffsG, i + 1) % q
  {
    coeffsF := [secretS] + randF;
    coeffsG := [secretT] + randG;
    shares := [];
    var x := 1;
    while x <= n
      invariant 1 <= x && (n >= 0 ==> x <= n + 1) && (n < 0 ==> x == 1)
      invariant |shares| == x - 1
      invariant forall i :: 0 <= i < |shares| ==>
        shares[i].x == i + 1 && shares[i].fx < q && shares[i].gx < q
        && shares[i].fx == PolyEval(coeffsF, i + 1) % q && shares[i].gx == PolyEval(coeffsG, i + 1) % q
    {
      var fx := Evaluate(coeffsF, x, q);
      var gx := Evaluate(coeffsG, x, q);
      shares := shares + [Share(x, fx, gx)];
      x := x + 1;
    }
  }

  // ---------------------------------------------------------------------
  // Verification

  /** `verify_shares`: true exactly when every share passes its test; the
      loop stops at the first share that fails. */
  method VerifyShares(shares: seq<Share>, cf: seq<nat>, cg: seq<nat>, g: int, h: int, p: int, t: int)
    returns (ok: bool)
    requires p > 0 && t <= |cf| && t <= |cg|
    ensures ok <==> forall i :: 0 <= i < |shares| ==> ShareVerifies(shares[i], Commitments(cf, cg, g, h, p, t), g, h, p)
  {
    var cs := Commitments(cf, cg, g, h, p, t);
    var k := 0;
    while k < |shares|
      invariant 0 <= k <= |shares|
      invariant forall i :: 0 <= i < k ==> ShareVerifies(shares[i], cs, g, h, p)
    {
      var s := shares[k];
      var lhs := Commitment(s.fx, s.gx, g, h, p);
      var rhs := 1;
      var j := 0;
      while j < |cs|
        invariant 0 <= j <= |cs|
        invariant rhs == RhsProduct(cs[..j], s.x, p)
      {
        assert cs[..j + 1][..j] == cs[..j];
        rhs := (rhs * ModPow(cs[j], NatPow(s.x, j), p)) % p;
        j := j + 1;
      }
      assert cs[..|cs|] == cs;
      if lhs != rhs {
        return false;
      }
      k := k + 1;
    }
    return true;
  }

  // ---------------------------------------------------------------------
  // What verification means

  lemma CommitmentsPrefix(cf: seq<nat>, cg: seq<nat>, g: int, h: int, p: int, k: int)
    requires p > 0 && 0 <= k < |cf| && k < |cg|
    ensures Commitments(cf, cg, g, h, p, k + 1)[..k] == Commitments(cf, cg, g, h, p, k)
  {
  }

  /** A product of naturals, typed as one. */
  function NatMul(a: nat, b: nat): (r: nat)
    ensures r == a * b
  {
    a * b
  }

  lemma NatEvalStep(c: seq<nat>, x: nat, k: nat)
    requires k < |c|
    ensures NatEval(c[..k + 1], x) == NatEval(c[..k], x) + NatMul(c[k], NatPow(x, k))
  {
    assert c[..k + 1][..k] == c[..k];
  }

  /** A commitment raised to e is the commitment to a * e and b * e. */
  lemma CommitmentPower(a: nat, b: nat, e: nat, g: int, h: int, p: int)
    requires p > 0
    ensures ModPow(Commitment(a, b, g, h, p), e, p) == (Pow(g, NatMul(a, e)) * Pow(h, NatMul(b, e))) % p
  {
    var c := Commitment(a, b, g, h, p);
    ModOfMod(Pow(g, a) * Pow(h, b), p);
    PowCong(c, Pow(g, a) * Pow(h, b), e, p);
    PowProduct(Pow(g, a), Pow(h, b), e);
    PowMul(g, a, e);
    PowMul(h, b, e);
  }

  lemma CombineCong(r: int, m: int, gn: int, hn: int, ga: int, hb: int, p: int)
    requires p > 0 && r % p == (gn * hn) % p && m % p == (ga * hb) % p
    ensures (r * m) % p == ((gn * ga) * (hn * hb)) % p
  {
    MulCong(r, gn * hn, m, ga * hb, p);
    assert (gn * hn) * (ga * hb) == (gn * ga) * (hn * hb);
  }

  /** One factor of the product: exponents of g and of h add up. */
  lemma RhsStep(r: int, m: int, g: int, h: int, p: int, fn: nat, gn: nat, da: nat, db: nat)
    requires p > 0 && r % p == (Pow(g, fn) * Pow(h, gn)) % p && m % p == (Pow(g, da) * Pow(h, db)) % p
    ensures ((r * m) % p) % p == (Pow(g, fn + da) * Pow(h, gn + db)) % p
  {
    CombineCong(r, m, Pow(g, fn), Pow(h, gn), Pow(g, da), Pow(h, db), p);
    PowAdd(g, fn, da);
    PowAdd(h, gn, db);
    ModOfMod(r * m, p);
  }

  /** The step of the product over the commitments, on plain integers. */
  lemma RhsValueStep(r: int, prev: int, m: int, g: int, h: int, p: int,
                     fn: nat, gn: nat, da: nat, db: nat, fk: nat, gk: nat)
    requires p > 0 && r == (prev * m) % p && m == (Pow(g, da) * Pow(h, db)) % p
    requires prev % p == (Pow(g, fn) * Pow(h, gn)) % p
    requires fk == fn + da && gk == gn + db
    ensures r % p == (Pow(g, fk) * Pow(h, gk)) % p
  {
    ModOfMod(Pow(g, da) * Pow(h, db), p);
    RhsStep(prev, m, g, h, p, fn, gn, da, db);
    RhsRename(r, prev, m, g, h, p, fn, gn, da, db, fk, gk);
  }

  /** Restates RhsStep's conclusion for the named exponent sums. */
  lemma RhsRename(r: int, prev: int, m: int, g: int, h: int, p: int,
                  fn: nat, gn: nat, da: nat, db: nat, fk: nat, gk: nat)
    requires p > 0 && r == (prev * m) % p
    requires fk == fn + da && gk == gn + db
    requires ((prev * m) % p) % p == (Pow(g, fn + da) * Pow(h, gn + db)) % p
    ensures r % p == (Pow(g, fk) * Pow(h, gk)) % p
  {
  }

  lemma RhsProductUnfold(cf: seq<nat>, cg: seq<nat>, g: int, h: int, p: int, x: nat, k: nat)
    requires p > 0 && 0 < k <= |cf| && k <= |cg|
    ensures RhsProduct(Commitments(cf, cg, g, h, p, k), x, p)
         == (RhsProduct(Commitments(cf, cg, g, h, p, k - 1), x, p)
             * ModPow(Commitment(cf[k - 1], cg[k - 1], g, h, p), NatPow(x, k - 1), p)) % p
  {
    CommitmentsPrefix(cf, cg, g, h, p, k - 1);
  }

  /** The product of the first k commitments raised to x^j is g^f(x) * h^g(x)
      modulo p, for the polynomials cut to their first k coefficients. */
  lemma {:induction false} RhsProductValue(cf: seq<nat>, cg: seq<nat>, g: int, h: int, p: int, x: nat, k: nat)
    requires p > 0 && k <= |cf| && k <= |cg|
    ensures RhsProduct(Commitments(cf, cg, g, h, p, k), x, p) % p
         == (Pow(g, NatEval(cf[..k], x)) * Pow(h, NatEval(cg[..k], x))) % p
  {
    if k == 0 {
      assert cf[..0] == [] && cg[..0] == [];
    } else {
      var n := k - 1;
      RhsProductUnfold(cf, cg, g, h, p, x, k);
      RhsProductValue(cf, cg, g, h, p, x, n);
      NatEvalStep(cf, x, n);
      NatEvalStep(cg, x, n);
      var e := NatPow(x, n);
      CommitmentPower(cf[n], cg[n], e, g, h, p);
      RhsValueStep(RhsProduct(Commitments(cf, cg, g, h, p, k), x, p),
                   RhsProduct(Commitments(cf, cg, g, h, p, n), x, p),
                   ModPow(Commitment(cf[n], cg[n], g, h, p), e, p), g, h, p,
                   NatEval(cf[..n], x), NatEval(cg[..n], x), NatMul(cf[n], e), NatMul(cg[n], e),
                   NatEval(cf[..k], x), NatEval(cg[..k], x));
    }
  }

  lemma RhsProductBound(cs: seq<int>, x: nat, p: int)
    requires p > 1
    ensures 0 <= RhsProduct(cs, x, p) < p
  {
  }

  /** With g and h of order dividing q, a share passes verification exactly
      when its commitment equals the commitment of the true values
      f(x) mod q and g(x) mod q of the first t coefficients. */
  lemma VerificationEquation(s: Share, cf: seq<nat>, cg: seq<nat>, g: int, h: int, p: int, q: int, t: nat)
    requires p > 1 && q > 0 && t <= |cf| && t <= |cg|
    requires Pow(g, q) % p == 1 && Pow(h, q) % p == 1
    ensures ShareVerifies(s, Commitments(cf, cg, g, h, p, t), g, h, p)
        <==> Commitment(s.fx, s.gx, g, h, p)
             == Commitment(NatEval(cf[..t], s.x) % q, NatEval(cg[..t], s.x) % q, g, h, p)
  {
    var f, e := NatEval(cf[..t], s.x), NatEval(cg[..t], s.x);
    var rhs := RhsProduct(Commitments(cf, cg, g, h, p, t), s.x, p);
    RhsProductValue(cf, cg, g, h, p, s.x, t);
    RhsProductBound(Commitments(cf, cg, g, h, p, t), s.x, p);
    ModSmall(rhs, p);
    ModSmall(1, p);
    PowReduceExponent(g, f, q, p);
    PowReduceExponent(h, e, q, p);
    MulCong(Pow(g, f), Pow(g, f % q), Pow(h, e), Pow(h, e % q), p);
  }

  /** Shares computed from the coefficient lists pass verification with the
      same lists (demo lines: verification succeeds). */
  lemma HonestSharesVerify(shares: seq<Share>, coeffsF: seq<nat>, coeffsG: seq<nat>,
                           g: int, h: int, p: int, q: int, t: nat)
    requires p > 1 && q > 0 && |coeffsF| == t && |coeffsG| == t
    requires Pow(g, q) % p == 1 && Pow(h, q) % p == 1
    requires forall i :: 0 <= i < |shares| ==>
      shares[i].fx == PolyEval(coeffsF, shares[i].x) % q && shares[i].gx == PolyEval(coeffsG, shares[i].x) % q
    ensures forall i :: 0 <= i < |shares| ==>
      ShareVerifies(shares[i], Commitments(coeffsF, coeffsG, g, h, p, t), g, h, p)
  {
    assert coeffsF[..t] == coeffsF && coeffsG[..t] == coeffsG;
    forall i | 0 <= i < |shares|
      ensures ShareVerifies(shares[i], Commitments(coeffsF, coeffsG, g, h, p, t), g, h, p)
    {
      VerificationEquation(shares[i], coeffsF, coeffsG, g, h, p, q, t);
    }
  }

  /** The demo's deal-then-verify run: with t >= 1 and g, h in the order-q
      subgroup, every share dealt is accepted. */
  method DealAndVerify(secretS: nat, secretT: nat, n: int, t: int, p: int, q: int, g: int, h: int,
                       randF: seq<nat>, randG: seq<nat>)
    returns (ok: bool)
    requires p > 1 && q > 0 && t >= 1 && |randF| == t - 1 && |randG| == t - 1
    requires Pow(g, q) % p == 1 && Pow(h, q) % p == 1
    ensures ok
  {
    var shares, coeffsF, coeffsG := GenerateShares(secretS, secretT, n, t, q, randF, randG);
    HonestSharesVerify(shares, coeffsF, coeffsG, g, h, p, q, t);
    ok := VerifyShares(shares, coeffsF, coeffsG, g, h, p, t);
  }

  /** `find_independent_generator` returns g^a mod p, which lies in the
      order-q subgroup whenever g does. */
  lemma IndependentGeneratorOrder(g: int, a: nat, p: int, q: nat)
    requires p > 1 && Pow(g, q) % p == 1
    ensures Pow(ModPow(g, a, p), q) % p == 1
  {
    var ga, gq := Pow(g, a), Pow(g, q);
    ModOfMod(ga, p);
    PowCong(ga % p, ga, q, p);
    var n := a * q;
    assert q * a == n;
    PowMul(g, a, q);
    PowMul(g, q, a);
    assert Pow(ga, q) == Pow(gq, a);
    ModSmall(1, p);
    PowCong(gq, 1, a, p);
    PowOfOne(a);
  }

  // ---------------------------------------------------------------------
  // Reconstruction

  lemma ModInverseOfResidue(d: int, q: int)
    requires q > 0
    ensures ModInverse(d % q, q) == ModInverse(d, q)
  {
    ModOfMod(d, q);
  }

  /** The inner loop of `lagrange_interpolate_zero`: `li`, multiplied by
      `(-xj) * modinv((xi - xj) % q, q)` for every j != i and reduced after
      each factor, agrees modulo q with the basis value of point i at 0. */
  method BasisValue(xs: seq<int>, i: int, q: int) returns (li: int)
    requires q > 0 && AllInvertible(xs, q) && 0 <= i < |xs|
    ensures li % q == BasisAt(xs, i, 0, q) % q
  {
    var k := |xs|;
    var xi := xs[i];
    li := 1;
    var j := 0;
    while j < k
      invariant 0 <= j <= k
      invariant li % q == BasisUpTo(xs, i, j, 0, q) % q
    {
      if i != j {
        var xj := xs[j];
        assert PairInvertible(xs, i, j, q);
        ModInverseOfResidue(xi - xj, q);
        var inv := ModInverse((xi - xj) % q, q).value;
        InvIsModInverse(xi - xj, q);
        LiStep(BasisUpTo(xs, i, j, 0, q), li, (-xj) * inv, q);
        li := li * ((-xj) * inv);
        li := li % q;
      }
      j := j + 1;
    }
  }

  /** `lagrange_interpolate_zero`: the interpolated value at 0, with `li`
      reduced after every factor and `total` after every term. */
  method LagrangeInterpolateZero(xs: seq<int>, ys: seq<int>, q: int) returns (total: int)
    requires q > 0 && |ys| >= |xs| && AllInvertible(xs, q)
    ensures 0 <= total < q
    ensures total == Interpolate(xs, ys, 0, q) % q
    ensures |xs| == 1 ==> total == ys[0] % q
  {
    if |xs| == 1 {
      InterpolateSingle(xs, ys, 0, q);
    }
    ghost var T := Terms(xs, ys, 0, q);
    total := 0;
    var k := |xs|;
    var i := 0;
    while i < k
      invariant 0 <= i <= k
      invariant total == Sum(T[..i]) % q
    {
      var yi := ys[i];
      var li := BasisValue(xs, i, q);
      TotalStep(T, i, total, yi, li, BasisAt(xs, i, 0, q), q);
      total := total + yi * li;
      total := total % q;
      i := i + 1;
    }
    assert T[..k] == T;
  }

  lemma LiStep(b: int, li: int, f: int, q: int)
    requires q > 0 && li % q == b % q
    ensures ((li * f) % q) % q == (b * f) % q
  {
    MulCong(li, b, f, f, q);
    ModOfMod(li * f, q);
  }

  lemma TotalStep(t: seq<int>, i: int, total: int, yi: int, li: int, bi: int, q: int)
    requires q > 0 && 0 <= i < |t| && total == Sum(t[..i]) % q
    requires li % q == bi % q && t[i] == yi * bi
    ensures (total + yi * li) % q == Sum(t[..i + 1]) % q
  {
    SumPrefixStep(t, i);
    ModOfMod(Sum(t[..i]), q);
    MulCong(yi, yi, li, bi, q);
    AddCong(total, Sum(t[..i]), yi * li, yi * bi, q);
  }

  /** The x coordinates and the f values of the first t shares, as the demo
      takes them from `shares[:t]`. */
  function FirstXs(shares: seq<Share>, t: nat): seq<int>
    requires t <= |shares|
  {
    seq(t, i requires 0 <= i < t => shares[i].x)
  }

  function FirstFx(shares: seq<Share>, t: nat): seq<int>
    requires t <= |shares|
  {
    seq(t, i requires 0 <= i < t => shares[i].fx)
  }

  /** Interpolating the first t dealt shares at 0 recovers secret_s modulo
      q, for a prime q above t. */
  lemma RecoverSecretFromShares(shares: seq<Share>, coeffsF: seq<nat>, q: int, t: nat)
    requires Prime(q) && 1 <= t <= |shares| && t < q && |coeffsF| == t
    requires forall i :: 0 <= i < t ==> shares[i].x == i + 1 && shares[i].fx == PolyEval(coeffsF, i + 1) % q
    ensures Interpolate(FirstXs(shares, t), FirstFx(shares, t), 0, q) % q == coeffsF[0] % q
  {
    var xs, ys := FirstXs(shares, t), FirstFx(shares, t);
    assert forall i :: 0 <= i < t ==> xs[i] == i + 1;
    DistinctPointsInvertible(xs, q);
    forall i | 0 <= i < t
      ensures ys[i] % q == PolyEval(coeffsF, xs[i]) % q
    {
      ModOfMod(PolyEval(coeffsF, i + 1), q);
    }
    InterpolationAtZero(xs, ys, coeffsF, q);
  }

  /** The demo's deal-then-reconstruct run: interpolating the first t of n
      dealt shares at 0 gives back secret_s modulo q, for a prime q above t. */
  method DealAndReconstruct(secretS: nat, secretT: nat, n: int, t: int, q: int,
                            randF: seq<nat>, randG: seq<nat>)
    returns (recovered: int)
    requires Prime(q) && 1 <= t <= n && t < q && |randF| == t - 1 && |randG| == t - 1
    ensures recovered == secretS % q
  {
    var shares, coeffsF, coeffsG := GenerateShares(secretS, secretT, n, t, q, randF, randG);
    var xs, ys := FirstXs(shares, t), FirstFx(shares, t);
    RecoverSecretFromShares(shares, coeffsF, q, t);
    assert forall i :: 0 <= i < t ==> xs[i] == i + 1;
    DistinctPointsInvertible(xs, q);
    recovered := LagrangeInterpolateZero(xs, ys, q);
  }
}
