// Residues of integers modulo an arbitrary modulus, and primality.
module Modular {
  predicate Divides(d: int, n: int) {
    d > 0 && n % d == 0
  }

  ghost predicate IsPrime(p: int) {
    p >= 2 && forall d :: 2 <= d < p ==> !Divides(d, p)
  }

  type Prime = p: int | IsPrime(p) witness 2

  // `x` and `y` are the same residue modulo `m`.
  predicate Cong(m: int, x: int, y: int)
    requires m > 0
  {
    x % m == y % m
  }

  lemma MulAtLeast(m: int, k: int)
    requires m > 0 && k >= 1
    ensures m * k >= m
  {
  }

  lemma QuotientUnique(m: int, k: int, r: int, k': int, r': int)
    requires 0 <= r < m && 0 <= r' < m && m * k + r == m * k' + r'
    ensures k == k' && r == r'
  {
    assert m * (k - k') == m * k - m * k' && m * (k' - k) == m * k' - m * k;
    if k > k' {
      MulAtLeast(m, k - k');
    } else if k < k' {
      MulAtLeast(m, k' - k);
    }
  }

  lemma ModIs(m: int, x: int, k: int, r: int)
    requires 0 <= r < m && x == m * k + r
    ensures x % m == r && x / m == k
  {
    QuotientUnique(m, x / m, x % m, k, r);
  }

  lemma CongFromDiff(m: int, x: int, y: int, k: int)
    requires m > 0 && x - y == m * k
    ensures Cong(m, x, y)
  {
    assert y == m * (y / m) + y % m;
    assert x == m * (y / m + k) + y % m;
    ModIs(m, x, y / m + k, y % m);
  }

  lemma DiffFromCong(m: int, x: int, y: int) returns (k: int)
    requires m > 0 && Cong(m, x, y)
    ensures x - y == m * k
  {
    assert x == m * (x / m) + x % m;
    assert y == m * (y / m) + y % m;
    k := x / m - y / m;
  }

  // Extended Euclid: `g == s * a + t * b`, and `g` divides both.
  datatype Bezout = Bezout(g: int, s: int, t: int)

  function ExtendedGcd(a: nat, b: nat): Bezout
    decreases b
  {
    if b == 0 then Bezout(a, 1, 0)
    else
      var r := ExtendedGcd(b, a % b);
      Bezout(r.g, r.t, r.s - (a / b) * r.t)
  }

  lemma {:induction false} GcdIsCombination(a: nat, b: nat)
    ensures var r := ExtendedGcd(a, b); r.g == r.s * a + r.t * b
    decreases b
  {
    if b != 0 {
      GcdIsCombination(b, a % b);
      BezoutStep(a, b, a / b, a % b, ExtendedGcd(b, a % b).s, ExtendedGcd(b, a % b).t);
    }
  }

  lemma BezoutStep(a: int, b: int, quotient: int, rest: int, s: int, t: int)
    requires a == b * quotient + rest
    ensures s * b + t * rest == t * a + (s - quotient * t) * b
  {
  }

  lemma {:induction false} GcdDivides(a: nat, b: nat) returns (i: int, j: int)
    ensures ExtendedGcd(a, b).g * i == a && ExtendedGcd(a, b).g * j == b
    decreases b
  {
    if b == 0 {
      i, j := 1, 0;
    } else {
      var i', j' := GcdDivides(b, a % b);
      i, j := MultipleStep(a, b, a / b, a % b, ExtendedGcd(b, a % b).g, i', j');
    }
  }

  lemma MultipleStep(a: int, b: int, quotient: int, rest: int, g: int, i: int, j: int) returns (i': int, j': int)
    requires a == b * quotient + rest && g * i == b && g * j == rest
    ensures g * i' == a && g * j' == b
  {
    i', j' := i * quotient + j, i;
    assert g * (i * quotient + j) == (g * i) * quotient + g * j;
  }

  lemma {:induction false} GcdPositive(a: nat, b: nat)
    requires a > 0 || b > 0
    ensures ExtendedGcd(a, b).g > 0
    decreases b
  {
    if b != 0 {
      GcdPositive(b, a % b);
    }
  }

  // Every nonzero residue of a prime has an inverse, given by extended Euclid.
  lemma PrimeInverse(p: Prime, x: int)
    requires 0 < x < p
    ensures Cong(p, x * ExtendedGcd(x, p).s, 1)
  {
    var r := ExtendedGcd(x, p);
    GcdIsCombination(x, p);
    GcdPositive(x, p);
    var i, j := GcdDivides(x, p);
    DivisorOfPrime(p, x, r.g, i, j);
    assert x * r.s - 1 == p * -r.t;
    CongFromDiff(p, x * r.s, 1, -r.t);
  }

  lemma DivisorOfPrime(p: Prime, x: int, g: int, i: int, j: int)
    requires 0 < x < p && g > 0 && g * i == x && g * j == p
    ensures g == 1
  {
    assert IsPrime(p);
    FactorPositive(g, i);
    MulAtLeast(g, i);
    ModIs(g, p, j, 0);
    assert Divides(g, p);
  }

  lemma FactorPositive(m: int, k: int)
    requires m > 0 && m * k > 0
    ensures k >= 1
  {
    if k < 0 {
      MulAtLeast(m, -k);
    }
  }
}
