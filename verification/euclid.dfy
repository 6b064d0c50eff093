/** The greatest common divisor by Euclid's algorithm, Bezout's identity,
    coprimality and primes. These are the number-theoretic facts the
    modular inverse, the Chinese remainder combination and the Miller-Rabin
    soundness argument rest on. */
module Euclid {
  import opened Modular

  /** Euclid's algorithm on non-negative integers. */
  function Gcd(a: nat, b: nat): nat
    decreases b
  {
    if b == 0 then a else Gcd(b, a % b)
  }

  /** `n` is prime: at least 2 and without a divisor strictly between 1 and `n`. */
  predicate IsPrime(n: int) {
    n >= 2 && forall d :: 2 <= d < n ==> !Divides(d, n)
  }

  lemma {:induction false} GcdPositive(a: nat, b: nat)
    requires a > 0 || b > 0
    ensures Gcd(a, b) > 0
    decreases b
  {
    if b > 0 {
      GcdPositive(b, a % b);
    }
  }

  lemma GcdComm(a: nat, b: nat)
    ensures Gcd(a, b) == Gcd(b, a)
  {
    if a < b {
      ModUnique(a, b, 0, a);
    } else if b < a {
      ModUnique(b, a, 0, b);
    }
  }

  /** The gcd divides both arguments. */
  lemma {:induction false} GcdDivides(a: nat, b: nat)
    requires a > 0 || b > 0
    ensures Divides(Gcd(a, b), a) && Divides(Gcd(a, b), b)
    decreases b
  {
    if b == 0 {
      DividesSelf(a);
      DividesZero(a);
    } else {
      var g := Gcd(b, a % b);
      GcdDivides(b, a % b);
      assert a == b * (a / b) + a % b;
      DividesLinear(g, b, a % b, a / b, 1);
    }
  }

  /** Bezout's identity: the gcd is an integer combination of the arguments. */
  lemma {:induction false} Bezout(a: nat, b: nat) returns (x: int, y: int)
    ensures a * x + b * y == Gcd(a, b)
    decreases b
  {
    if b == 0 {
      x, y := 1, 0;
    } else {
      var x', y' := Bezout(b, a % b);
      var q := a / b;
      assert a % b == a - b * q;
      x, y := y', x' - q * y';
      BezoutStep(a, b, q, x', y');
    }
  }

  lemma BezoutStep(a: int, b: int, q: int, x': int, y': int)
    ensures a * y' + b * (x' - q * y') == b * x' + (a - b * q) * y'
  {
  }

  /** 1 is coprime to everything. */
  lemma GcdOneLeft(m: nat)
    ensures Gcd(1, m) == 1
  {
    if m > 1 {
      ModUnique(1, m, 0, 1);
      assert Gcd(1, m) == Gcd(m, 1);
      ModUnique(m, 1, m, 0);
    }
  }

  /** Every common divisor divides the gcd. */
  lemma CommonDivisorDividesGcd(d: int, a: nat, b: nat)
    requires Divides(d, a) && Divides(d, b)
    ensures Divides(d, Gcd(a, b))
  {
    var x, y := Bezout(a, b);
    DividesLinear(d, a, b, x, y);
  }

  /** A product of two numbers coprime to `m` is coprime to `m`. */
  lemma CoprimeMul(a: nat, b: nat, m: nat)
    requires Gcd(a, m) == 1 && Gcd(b, m) == 1
    ensures Gcd(a * b, m) == 1
  {
    var x1, y1 := Bezout(a, m);
    var x2, y2 := Bezout(b, m);
    if m == 0 {
      assert a == 1 && b == 1;
    } else {
      var g := Gcd(a * b, m);
      GcdPositive(a * b, m);
      GcdDivides(a * b, m);
      BezoutProduct(a, b, m, x1, y1, x2, y2);
      DividesLinear(g, a * b, m, x1 * x2, y1 + y2 - m * y1 * y2);
      DividesOne(g);
    }
  }

  /** Multiplying two Bezout identities for the modulus `m`. */
  lemma BezoutProduct(a: int, b: int, m: int, x1: int, y1: int, x2: int, y2: int)
    requires a * x1 + m * y1 == 1 && b * x2 + m * y2 == 1
    ensures (a * b) * (x1 * x2) + m * (y1 + y2 - m * y1 * y2) == 1
  {
    var u, v := a * x1, b * x2;
    assert (a * b) * (x1 * x2) == u * v;
    assert u * v == (1 - m * y1) * (1 - m * y2);
  }

  /** Gauss's lemma: if `m` divides `a * c` and is coprime to `a`, it divides `c`. */
  lemma GaussLemma(m: int, a: nat, c: int)
    requires m > 0 && Gcd(a, m) == 1 && Divides(m, a * c)
    ensures Divides(m, c)
  {
    var x, y := Bezout(a, m);
    assert c == (a * c) * x + m * (c * y) by {
      assert c == c * (a * x + m * y);
    }
    DividesSelf(m);
    DividesLinear(m, a * c, m, x, c * y);
  }

  /** Two coprime divisors of `z` divide `z` together. */
  lemma CoprimeDivisorsMul(a: int, b: int, z: int)
    requires Divides(a, z) && Divides(b, z) && Gcd(a, b) == 1
    ensures Divides(a * b, z)
  {
    var k := z / a;
    DividesQuotient(a, z);
    assert Divides(b, a * k);
    GcdComm(a, b);
    GaussLemma(b, a, k);
    var k' := k / b;
    DividesQuotient(b, k);
    MulAssoc(a, b, k');
    DividesMultiple(a * b, k');
  }

  /** A number strictly between 0 and a prime is coprime to it. */
  lemma PrimeCoprime(p: int, a: nat)
    requires IsPrime(p) && 0 < a < p
    ensures Gcd(a, p) == 1
  {
    GcdPositive(a, p);
    GcdDivides(a, p);
    var g := Gcd(a, p);
    DivisorBound(g, a);
    assert !Divides(g, p) || g < 2;
  }

  /** Euclid's lemma: a prime dividing a product divides one of its factors. */
  lemma PrimeDividesProduct(p: int, a: int, b: int)
    requires IsPrime(p) && Divides(p, a * b)
    ensures Divides(p, a) || Divides(p, b)
  {
    if !Divides(p, a) {
      var a' := a % p;
      PrimeCoprime(p, a');
      assert a' * b == a * b + p * (-(a / p) * b) by {
        assert a' == a - p * (a / p);
      }
      DividesSelf(p);
      DividesLinear(p, a * b, p, 1, -(a / p) * b);
      GaussLemma(p, a', b);
    }
  }

  /** No number in `lo .. hi` divides `n`, checked one candidate at a time. */
  predicate NoDivisorBetween(n: int, lo: int, hi: int)
    decreases hi - lo
  {
    lo > hi || (!Divides(lo, n) && NoDivisorBetween(n, lo + 1, hi))
  }

  /** Trial division decides primality. */
  lemma {:induction false} NoDivisorBetweenSound(n: int, lo: int, hi: int)
    ensures NoDivisorBetween(n, lo, hi) <==> forall d :: lo <= d <= hi ==> !Divides(d, n)
    decreases hi - lo
  {
    if lo <= hi {
      NoDivisorBetweenSound(n, lo + 1, hi);
    }
  }

  /** Trial division up to the square root decides primality: a divisor above
      `k` has a cofactor at most `k` once `(k + 1)^2 > n`. */
  lemma PrimeByTrialDivision(n: int, k: int)
    requires n >= 2 && 1 <= k < n && (k + 1) * (k + 1) > n
    ensures IsPrime(n) <==> NoDivisorBetween(n, 2, k)
  {
    NoDivisorBetweenSound(n, 2, k);
    if NoDivisorBetween(n, 2, k) {
      forall d | 2 <= d < n
        ensures !Divides(d, n)
      {
        if Divides(d, n) {
          CofactorSmall(n, k, d);
        }
      }
    }
  }

  /** A divisor `d` of `n` strictly between 1 and `n` leaves a cofactor in
      `2 .. n - 1`, and one of the two is at most `k` when `(k + 1)^2 > n`. */
  lemma CofactorSmall(n: int, k: int, d: int)
    requires n >= 2 && 1 <= k < n && (k + 1) * (k + 1) > n
    requires 2 <= d < n && Divides(d, n)
    ensures exists e :: 2 <= e <= k && Divides(e, n)
  {
    var e := n / d;
    DividesQuotient(d, n);
    assert n == e * d;
    DividesMultiple(e, d);
    assert e >= 0;
    assert e != 0 && e != 1;
    if d <= k {
      assert 2 <= d <= k && Divides(d, n);
    } else if e > k {
      MulMonotone(k + 1, d, k + 1, e);
    } else {
      assert 2 <= e <= k && Divides(e, n);
    }
  }

  lemma MulMonotone(a: int, b: int, c: int, d: int)
    requires 0 <= a <= b && 0 <= c <= d
    ensures a * c <= b * d
  {
    assert a * c <= b * c;
    assert b * c <= b * d;
  }
}
