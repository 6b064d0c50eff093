/** Divisibility and congruence over the integers, with the few facts about
    Euclidean `/` and `%` that the rest of the model builds on. Every modulus
    here is positive, where Dafny's `%` and Python's `%` agree. */
module Modular {

  function Abs(x: int): nat {
    if x < 0 then -x else x
  }

  /** `d` is a positive divisor of `n`. */
  predicate Divides(d: int, n: int) {
    d > 0 && n % d == 0
  }

  /** `x` and `y` are congruent modulo the positive modulus `m`. */
  predicate Congruent(x: int, y: int, m: int) {
    Divides(m, x - y)
  }

  lemma MulAtLeast(m: int, t: int)
    requires m > 0 && t >= 1
    ensures m * t >= m
  {
  }

  /** Quotient and remainder are the only pair with `x == m * q + r` and `0 <= r < m`. */
  lemma ModUnique(x: int, m: int, q: int, r: int)
    requires m > 0 && 0 <= r < m && x == m * q + r
    ensures x / m == q && x % m == r
  {
    var q', r' := x / m, x % m;
    assert x == m * q' + r';
    assert m * (q - q') == r' - r;
    if q > q' {
      MulAtLeast(m, q - q');
    } else if q < q' {
      MulAtLeast(m, q' - q);
    }
  }

  lemma DividesMultiple(d: int, k: int)
    requires d > 0
    ensures Divides(d, d * k)
  {
    ModUnique(d * k, d, k, 0);
  }

  lemma DividesZero(d: int)
    requires d > 0
    ensures Divides(d, 0)
  {
    DividesMultiple(d, 0);
  }

  lemma DividesSelf(d: int)
    requires d > 0
    ensures Divides(d, d)
  {
    DividesMultiple(d, 1);
  }

  lemma OneDividesAll(n: int)
    ensures Divides(1, n)
  {
    DividesMultiple(1, n);
  }

  lemma DividesQuotient(d: int, n: int)
    requires Divides(d, n)
    ensures n == d * (n / d)
  {
  }

  /** Divisibility is closed under integer linear combinations. */
  lemma DividesLinear(d: int, u: int, v: int, s: int, t: int)
    requires Divides(d, u) && Divides(d, v)
    ensures Divides(d, u * s + v * t)
  {
    var ku, kv := u / d, v / d;
    assert u == d * ku && v == d * kv;
    assert u * s == d * (ku * s);
    assert v * t == d * (kv * t);
    assert u * s + v * t == d * (ku * s + kv * t);
    DividesMultiple(d, ku * s + kv * t);
  }

  lemma DividesMul(d: int, u: int, s: int)
    requires Divides(d, u)
    ensures Divides(d, u * s) && Divides(d, s * u)
  {
    DividesZero(d);
    DividesLinear(d, u, 0, s, 0);
    assert s * u == u * s;
  }

  lemma DividesAdd(d: int, u: int, v: int)
    requires Divides(d, u) && Divides(d, v)
    ensures Divides(d, u + v) && Divides(d, u - v)
  {
    DividesLinear(d, u, v, 1, 1);
    DividesLinear(d, u, v, 1, -1);
  }

  lemma DividesTrans(a: int, b: int, c: int)
    requires Divides(a, b) && Divides(b, c)
    ensures Divides(a, c)
  {
    var k := c / b;
    assert c == b * k;
    DividesMul(a, b, k);
  }

  /** A positive multiple of `d` is at least `d`. */
  lemma DivisorBound(d: int, n: int)
    requires Divides(d, n) && n > 0
    ensures d <= n
  {
    var k := n / d;
    assert n == d * k;
    MulAtLeast(d, k);
  }

  lemma DividesOne(g: int)
    requires Divides(g, 1)
    ensures g == 1
  {
    DivisorBound(g, 1);
  }

  /** Congruence modulo `m` is equality of remainders. */
  lemma CongruentIffMod(x: int, y: int, m: int)
    requires m > 0
    ensures Congruent(x, y, m) <==> x % m == y % m
  {
    if Congruent(x, y, m) {
      var k := (x - y) / m;
      assert x - y == m * k;
      assert x == m * (y / m + k) + y % m;
      ModUnique(x, m, y / m + k, y % m);
    }
    if x % m == y % m {
      assert x - y == m * (x / m - y / m);
      DividesMultiple(m, x / m - y / m);
    }
  }

  lemma CongruentRefl(x: int, m: int)
    requires m > 0
    ensures Congruent(x, x, m)
  {
    DividesZero(m);
  }

  lemma CongruentSym(x: int, y: int, m: int)
    requires Congruent(x, y, m)
    ensures Congruent(y, x, m)
  {
    DividesMul(m, x - y, -1);
  }

  lemma CongruentTrans(x: int, y: int, z: int, m: int)
    requires Congruent(x, y, m) && Congruent(y, z, m)
    ensures Congruent(x, z, m)
  {
    DividesAdd(m, x - y, y - z);
  }

  lemma CongruentAdd(a: int, b: int, c: int, d: int, m: int)
    requires Congruent(a, b, m) && Congruent(c, d, m)
    ensures Congruent(a + c, b + d, m)
  {
    DividesAdd(m, a - b, c - d);
  }

  lemma CongruentMul(a: int, b: int, c: int, d: int, m: int)
    requires Congruent(a, b, m) && Congruent(c, d, m)
    ensures Congruent(a * c, b * d, m)
  {
    DividesLinear(m, c - d, a - b, a, d);
    CrossIdentity(a, b, c, d);
  }

  lemma CrossIdentity(a: int, b: int, c: int, d: int)
    ensures (c - d) * a + (a - b) * d == a * c - b * d
  {
  }

  /** Every integer is congruent to its remainder. */
  lemma CongruentToMod(x: int, m: int)
    requires m > 0
    ensures Congruent(x, x % m, m)
  {
    assert x - x % m == m * (x / m);
    DividesMultiple(m, x / m);
  }

  /** A congruence modulo `m` also holds modulo every divisor of `m`. */
  lemma CongruentDivisor(x: int, y: int, m: int, d: int)
    requires Congruent(x, y, m) && Divides(d, m)
    ensures Congruent(x, y, d)
  {
    DividesTrans(d, m, x - y);
  }

  lemma MulAssoc(a: int, b: int, c: int)
    ensures a * (b * c) == (a * b) * c
  {
  }

  /** Remainders can be taken before multiplying. */
  lemma MulMod(x: int, y: int, m: int)
    requires m > 0
    ensures ((x % m) * (y % m)) % m == (x * y) % m
  {
    CongruentToMod(x, m);
    CongruentToMod(y, m);
    CongruentSym(x, x % m, m);
    CongruentSym(y, y % m, m);
    CongruentMul(x % m, x, y % m, y, m);
    CongruentIffMod((x % m) * (y % m), x * y, m);
  }
}
