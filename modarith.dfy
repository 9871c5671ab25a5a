/** Facts about Euclidean `%` with a positive modulus, used for arithmetic
    modulo the group prime p and modulo the subgroup order q. */
module ModArith {

  lemma MulAtLeast(e: int, m: int)
    requires e >= 1 && m > 0
    ensures e * m >= m
  {
    assert e * m == m + (e - 1) * m;
  }

  /** Quotient and remainder of a division are unique. */
  lemma DivModUnique(x: int, m: int, d: int, r: int)
    requires m > 0 && 0 <= r < m && x == d * m + r
    ensures x % m == r && x / m == d
  {
    var d', r' := x / m, x % m;
    assert x == d' * m + r';
    if d' > d {
      assert (d' - d) * m == r - r';
      MulAtLeast(d' - d, m);
    } else if d' < d {
      assert (d - d') * m == r' - r;
      MulAtLeast(d - d', m);
    }
  }

  /** Adding a multiple of the modulus does not change the remainder. */
  lemma ModShift(x: int, k: int, m: int)
    requires m > 0
    ensures (x + k * m) % m == x % m
  {
    DivModUnique(x + k * m, m, x / m + k, x % m);
  }

  lemma ModOfMod(a: int, m: int)
    requires m > 0
    ensures (a % m) % m == a % m
  {
    DivModUnique(a % m, m, 0, a % m);
  }

  lemma ModSmall(a: int, m: int)
    requires 0 <= a < m
    ensures a % m == a
  {
    DivModUnique(a, m, 0, a);
  }

  /** Two numbers with equal remainders differ by a multiple of the modulus. */
  lemma CongDiff(a: int, b: int, m: int)
    requires m > 0 && a % m == b % m
    ensures a - b == (a / m - b / m) * m
  {
  }

  /** The remainder of a sum depends only on the remainders of its terms. */
  lemma ModSumOfRemainders(a: int, b: int, m: int)
    requires m > 0
    ensures (a + b) % m == (a % m + b % m) % m
  {
    var qa, qb := a / m, b / m;
    assert a == qa * m + a % m;
    assert b == qb * m + b % m;
    assert qa * m + qb * m == (qa + qb) * m;
    ModShift(a % m + b % m, qa + qb, m);
  }

  lemma AddCong(a: int, a': int, b: int, b': int, m: int)
    requires m > 0 && a % m == a' % m && b % m == b' % m
    ensures (a + b) % m == (a' + b') % m
  {
    ModSumOfRemainders(a, b, m);
    ModSumOfRemainders(a', b', m);
  }

  lemma SubCong(a: int, a': int, b: int, b': int, m: int)
    requires m > 0 && a % m == a' % m && b % m == b' % m
    ensures (a - b) % m == (a' - b') % m
  {
    NegCong(b, b', m);
    AddCong(a, a', -b, -b', m);
  }

  lemma NegCong(b: int, b': int, m: int)
    requires m > 0 && b % m == b' % m
    ensures (-b) % m == (-b') % m
  {
    CongDiff(b, b', m);
    var k := b / m - b' / m;
    assert -b == -b' + (-k) * m;
    ModShift(-b', -k, m);
  }

  /** The remainder of a product depends only on the remainders of its factors. */
  lemma ModProductOfRemainders(a: int, b: int, m: int)
    requires m > 0
    ensures (a * b) % m == ((a % m) * (b % m)) % m
  {
    var qa, ra, qb, rb := a / m, a % m, b / m, b % m;
    assert a == qa * m + ra;
    assert b == qb * m + rb;
    assert a * b == qa * m * b + ra * b;
    assert ra * b == ra * qb * m + ra * rb;
    assert qa * m * b + ra * qb * m == (qa * b + ra * qb) * m;
    ModShift(ra * rb, qa * b + ra * qb, m);
  }

  lemma MulCong(a: int, a': int, b: int, b': int, m: int)
    requires m > 0 && a % m == a' % m && b % m == b' % m
    ensures (a * b) % m == (a' * b') % m
  {
    ModProductOfRemainders(a, b, m);
    ModProductOfRemainders(a', b', m);
  }
}
