/** The modular inverse that the scripts take from a library:
    `number.inverse(a, m)` in vss_basic.py and `pow(a, -1, m)` in
    project.py and version_1.py. Both return the inverse of a modulo m in
    [0, m) and raise an error when a and m are not coprime; here the error
    is `None`. */
module Inverse {
  import opened ModArith

  datatype Option<T> = None | Some(value: T)

  predicate Divides(d: int, n: int)
  {
    d != 0 && n % d == 0
  }

  predicate Prime(m: int)
  {
    m > 1 && forall d :: 1 < d < m ==> !Divides(d, m)
  }

  /** y is an inverse of a modulo m. */
  predicate IsInverse(a: int, y: int, m: int)
    requires m > 0
  {
    (a * y) % m == 1 % m
  }

  lemma DividesCombination(g: int, x: int, y: int, k: int)
    requires g > 0 && x % g == 0 && y % g == 0
    ensures (k * x + y) % g == 0
  {
    assert x == (x / g) * g && y == (y / g) * g;
    assert k * x + y == 0 + (k * (x / g) + y / g) * g;
    ModShift(0, k * (x / g) + y / g, g);
  }

  lemma DivisorAtMost(g: int, x: int)
    requires g > 0 && x > 0 && x % g == 0
    ensures g <= x
  {
    assert x == (x / g) * g;
    MulAtLeast(x / g, g);
  }

  /** Extended Euclid: the gcd g of a and b with Bezout coefficients s, t. */
  function ExtGcd(a: nat, b: nat): (nat, int, int)
    decreases b
  {
    if b == 0 then
      (a, 1, 0)
    else
      var (g, s, t) := ExtGcd(b, a % b);
      (g, t, s - (a / b) * t)
  }

  /** The coefficients satisfy Bezout's identity, and g divides a and b. */
  lemma {:induction false} ExtGcdBezout(a: nat, b: nat)
    decreases b
    ensures ExtGcd(a, b).0 == a * ExtGcd(a, b).1 + b * ExtGcd(a, b).2
    ensures a > 0 || b > 0 ==> ExtGcd(a, b).0 > 0 && a % ExtGcd(a, b).0 == 0 && b % ExtGcd(a, b).0 == 0
  {
    if b > 0 {
      ExtGcdBezout(b, a % b);
      var (g, s, t) := ExtGcd(b, a % b);
      BezoutStep(a, b, g, s, t);
    }
  }

  lemma BezoutStep(a: nat, b: nat, g: nat, s: int, t: int)
    requires b > 0 && g == b * s + (a % b) * t
    requires g > 0 && b % g == 0 && (a % b) % g == 0
    ensures g == a * t + b * (s - (a / b) * t)
    ensures a % g == 0
  {
    var k := a / b;
    assert a % b == a - k * b;
    assert g == b * s + (a - k * b) * t;
    assert (a - k * b) * t == a * t - k * b * t;
    assert b * (s - k * t) == b * s - k * b * t;
    assert a == k * b + a % b;
    DividesCombination(g, b, a % b, k);
  }

  /** The inverse of `a` modulo `m`, found by extended Euclid on the residue
      of `a`; `None` exactly when no inverse exists. */
  function ModInverse(a: int, m: int): (r: Option<int>)
    requires m > 0
    ensures r.Some? ==> 0 <= r.value < m && IsInverse(a, r.value, m)
    ensures r.None? ==> forall y :: !IsInverse(a, y, m)
  {
    ExtGcdBezout(a % m, m);
    var (g, s, t) := ExtGcd(a % m, m);
    if g == 1 then
      InverseFromBezout(a, m, s, t);
      Some(s % m)
    else
      NoInverse(a, m, g);
      None
  }

  lemma InverseFromBezout(a: int, m: int, s: int, t: int)
    requires m > 0 && (a % m) * s + m * t == 1
    ensures IsInverse(a, s % m, m)
  {
    var u := (a % m) * s;
    assert u + t * m == 1;
    ModShift(u, t, m);
    assert u % m == 1 % m;
    ModOfMod(a, m);
    ModOfMod(s, m);
    MulCong(a, a % m, s % m, s, m);
  }

  /** A number that is 1 modulo m is 1 modulo every divisor g >= 2 of m. */
  lemma OneModDivisor(u: int, m: int, g: int)
    requires g >= 2 && m > 0 && m % g == 0 && u % m == 1 % m
    ensures u % g == 1
  {
    DivisorAtMost(g, m);
    ModSmall(1, m);
    var k := (u / m) * (m / g);
    assert m == (m / g) * g;
    assert u == (u / m) * m + 1;
    assert (u / m) * m == k * g;
    ModShift(1, k, g);
    ModSmall(1, g);
  }

  lemma NoInverse(a: int, m: int, g: int)
    requires m > 0 && g > 0 && g != 1 && (a % m) % g == 0 && m % g == 0
    ensures forall y :: !IsInverse(a, y, m)
  {
    forall y
      ensures !IsInverse(a, y, m)
    {
      if IsInverse(a, y, m) {
        ModOfMod(a, m);
        MulCong(a, a % m, y, y, m);
        var u := (a % m) * y;
        OneModDivisor(u, m, g);
        DividesCombination(g, a % m, 0, y);
        assert false;
      }
    }
  }

  /** An inverse modulo m is unique in [0, m). */
  lemma InverseIsUnique(a: int, y1: int, y2: int, m: int)
    requires m > 0 && 0 <= y1 < m && 0 <= y2 < m
    requires IsInverse(a, y1, m) && IsInverse(a, y2, m)
    ensures y1 == y2
  {
    var w := a * y1 * y2;
    assert w == y1 * (a * y2) && w == y2 * (a * y1);
    ModSmall(y1, m);
    ModSmall(y2, m);
    MulCong(y1, y1, a * y2, 1, m);
    MulCong(y2, y2, a * y1, 1, m);
  }

  /** The least inverse of a modulo m that is at least y, found by
      trying y, y + 1, ... in turn; 0 when there is none. This is the
      reference definition `ModInverse` is compared with. */
  function SearchInverse(a: int, m: int, y: nat): int
    requires m > 0
    decreases m - y
  {
    if y >= m then 0
    else if (a * y) % m == 1 % m then y
    else SearchInverse(a, m, y + 1)
  }

  /** The search finds an inverse whenever there is one at or above y. */
  lemma {:induction false} SearchInverseFinds(a: int, m: int, y: nat, w: int)
    requires m > 0 && y <= w < m && IsInverse(a, w, m)
    ensures y <= SearchInverse(a, m, y) <= w
    ensures IsInverse(a, SearchInverse(a, m, y), m)
    decreases m - y
  {
    if (a * y) % m != 1 % m {
      SearchInverseFinds(a, m, y + 1, w);
    }
  }

  /** Extended Euclid and the search agree wherever an inverse exists. */
  lemma ModInverseIsSearch(a: int, m: int)
    requires m > 0 && ModInverse(a, m).Some?
    ensures ModInverse(a, m).value == SearchInverse(a, m, 0)
  {
    var v := ModInverse(a, m).value;
    SearchInverseFinds(a, m, 0, v);
    InverseIsUnique(a, v, SearchInverse(a, m, 0), m);
  }

  /** Modulo a prime every non-multiple has an inverse. */
  lemma PrimeInvertible(a: int, m: int)
    requires Prime(m) && a % m != 0
    ensures ModInverse(a, m).Some?
  {
    ExtGcdBezout(a % m, m);
    var (g, s, t) := ExtGcd(a % m, m);
    assert g > 0 && (a % m) % g == 0 && m % g == 0;
    DivisorAtMost(g, a % m);
    if g != 1 {
      assert 1 < g < m;
      assert Divides(g, m);
      assert false;
    }
  }
}
