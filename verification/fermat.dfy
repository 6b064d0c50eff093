/** Fermat's little theorem by the binomial theorem: for a prime `p` the
    middle binomial coefficients `C(p, k)` vanish modulo `p`, so
    `(a + 1)^p == a^p + 1 (mod p)`, and induction on `a` gives
    `a^p == a (mod p)`. The Miller-Rabin test relies on it: a prime is never
    declared composite. */
module Fermat {
  import opened Modular
  import opened Euclid
  import opened Powers

  /** The binomial coefficient `C(n, k)` by Pascal's rule. */
  function Binom(n: nat, k: nat): nat {
    if k == 0 then 1 else if n == 0 then 0 else Binom(n - 1, k - 1) + Binom(n - 1, k)
  }

  lemma {:induction false} BinomBeyond(n: nat, k: nat)
    requires k > n
    ensures Binom(n, k) == 0
    decreases n
  {
    if n > 0 {
      BinomBeyond(n - 1, k - 1);
      BinomBeyond(n - 1, k);
    }
  }

  /** The absorption identity `k * C(n, k) == n * C(n - 1, k - 1)`. */
  lemma {:induction false} BinomAbsorb(n: nat, k: nat)
    requires n >= 1 && k >= 1
    ensures k * Binom(n, k) == n * Binom(n - 1, k - 1)
    decreases n
  {
    if n == 1 {
      if k > 1 {
        BinomBeyond(0, k - 1);
        BinomBeyond(0, k);
      }
    } else {
      var x, y, z := Binom(n - 1, k - 1), Binom(n - 1, k), Binom(n - 2, k - 1);
      assert Binom(n, k) == x + y;
      BinomAbsorb(n - 1, k);
      if k > 1 {
        var w := Binom(n - 2, k - 2);
        BinomAbsorb(n - 1, k - 1);
        assert x == w + z;
        AbsorbCombine(n, k, x, y, z, w);
      } else {
        assert x == 1 && z == 1;
        AbsorbCombine(n, k, x, y, z, 0);
      }
    }
  }

  /** The arithmetic of one absorption step: with `x == w + z`,
      `k * y == (n - 1) * z` and `(k - 1) * x == (n - 1) * w`,
      `k * (x + y) == n * x`. */
  lemma AbsorbCombine(n: int, k: int, x: int, y: int, z: int, w: int)
    requires x == w + z && k * y == (n - 1) * z && (k - 1) * x == (n - 1) * w
    ensures k * (x + y) == n * x
  {
    calc {
      k * (x + y);
      (k - 1) * x + x + k * y;
      (n - 1) * w + x + (n - 1) * z;
      { Distribute(n - 1, w, z); }
      (n - 1) * x + x;
    }
  }

  lemma Distribute(a: int, b: int, c: int)
    ensures a * (b + c) == a * b + a * c
  {
  }

  /** A prime divides every middle coefficient of its row. */
  lemma PrimeDividesBinom(p: int, k: nat)
    requires IsPrime(p) && 0 < k < p
    ensures Divides(p, Binom(p, k))
  {
    BinomAbsorb(p, k);
    DividesMultiple(p, Binom(p - 1, k - 1));
    PrimeCoprime(p, k);
    GaussLemma(p, k, Binom(p, k));
  }

  /** `C(n, 0) * a^0 + ... + C(n, m - 1) * a^(m - 1)`. */
  function BinomSum(n: nat, a: int, m: nat): int {
    if m == 0 then 0 else BinomSum(n, a, m - 1) + Binom(n, m - 1) * Pow(a, m - 1)
  }

  /** Pascal's rule lifted to the partial sums. */
  lemma {:induction false} BinomSumPascal(n: nat, a: int, m: nat)
    ensures BinomSum(n + 1, a, m + 1) == a * BinomSum(n, a, m) + BinomSum(n, a, m + 1)
    decreases m
  {
    if m > 0 {
      BinomSumPascal(n, a, m - 1);
      var s0, s1 := BinomSum(n, a, m - 1), BinomSum(n, a, m);
      var c0, c1, q := Binom(n, m - 1), Binom(n, m), Pow(a, m - 1);
      assert Binom(n + 1, m) == c0 + c1;
      assert Pow(a, m) == a * q;
      assert s1 == s0 + c0 * q;
      assert BinomSum(n, a, m + 1) == s1 + c1 * (a * q);
      assert BinomSum(n + 1, a, m + 1) == BinomSum(n + 1, a, m) + (c0 + c1) * (a * q);
      assert BinomSum(n + 1, a, m) == a * s0 + s1;
      PascalStep(a, s0, s1, c0, c1, q);
    }
  }

  lemma PascalStep(a: int, s0: int, s1: int, c0: int, c1: int, q: int)
    ensures a * s0 + s1 + (c0 + c1) * (a * q) == a * (s0 + c0 * q) + (s1 + c1 * (a * q))
  {
  }

  /** The binomial theorem for `(a + 1)^n`. */
  lemma {:induction false} BinomialTheorem(a: int, n: nat)
    ensures Pow(a + 1, n) == BinomSum(n, a, n + 1)
    decreases n
  {
    if n > 0 {
      var prev := BinomSum(n - 1, a, n);
      BinomialTheorem(a, n - 1);
      assert Pow(a + 1, n) == (a + 1) * Pow(a + 1, n - 1);
      BinomSumPascal(n - 1, a, n);
      BinomBeyond(n - 1, n);
      assert BinomSum(n - 1, a, n + 1) == prev + Binom(n - 1, n) * Pow(a, n);
      BinomialStep(a, Pow(a + 1, n - 1), Pow(a + 1, n), prev, BinomSum(n - 1, a, n + 1), BinomSum(n, a, n + 1));
    }
  }

  lemma BinomialStep(a: int, p: int, p': int, s: int, s': int, t: int)
    requires p == s && p' == (a + 1) * p && s' == s && t == a * s + s'
    ensures p' == t
  {
  }

  /** For a prime `p`, the terms `1 .. m - 1` of row `p` vanish modulo `p`. */
  lemma {:induction false} MiddleTermsVanish(p: int, a: int, m: nat)
    requires IsPrime(p) && 1 <= m <= p
    ensures Congruent(BinomSum(p, a, m), 1, p)
    decreases m
  {
    if m == 1 {
      CongruentRefl(1, p);
    } else {
      MiddleTermsVanish(p, a, m - 1);
      PrimeDividesBinom(p, m - 1);
      DividesMul(p, Binom(p, m - 1), Pow(a, m - 1));
      DividesAdd(p, BinomSum(p, a, m - 1) - 1, Binom(p, m - 1) * Pow(a, m - 1));
    }
  }

  /** `(a + 1)^p == a^p + 1` modulo a prime `p`. */
  lemma FreshmanDream(p: int, a: int)
    requires IsPrime(p)
    ensures Congruent(Pow(a + 1, p), Pow(a, p) + 1, p)
  {
    BinomialTheorem(a, p);
    MiddleTermsVanish(p, a, p);
    assert Binom(p, p) == 1 by {
      BinomDiagonal(p);
    }
    assert BinomSum(p, a, p + 1) - (Pow(a, p) + 1) == BinomSum(p, a, p) - 1;
  }

  lemma {:induction false} BinomDiagonal(n: nat)
    ensures Binom(n, n) == 1
  {
    if n > 0 {
      BinomDiagonal(n - 1);
      BinomBeyond(n - 1, n);
    }
  }

  /** Fermat's little theorem for natural bases: `a^p == a (mod p)`. */
  lemma {:induction false} FermatNat(p: int, a: nat)
    requires IsPrime(p)
    ensures Congruent(Pow(a, p), a, p)
    decreases a
  {
    if a == 0 {
      assert Pow(0, p) == 0 by {
        PowZero(p);
      }
      CongruentRefl(0, p);
    } else {
      FermatNat(p, a - 1);
      FreshmanDream(p, a - 1);
      CongruentRefl(1, p);
      CongruentAdd(Pow(a - 1, p), a - 1, 1, 1, p);
      CongruentTrans(Pow(a, p), Pow(a - 1, p) + 1, a, p);
    }
  }

  lemma PowZero(e: nat)
    requires e > 0
    ensures Pow(0, e) == 0
  {
  }

  /** Fermat's little theorem: `a^(p - 1) mod p == 1` for every `a` that `p`
      does not divide. */
  lemma FermatLittle(p: int, a: int)
    requires IsPrime(p) && a % p != 0
    ensures Pow(a, p - 1) % p == 1
  {
    var b := a % p;
    FermatNat(p, b);
    assert Pow(b, p) == b * Pow(b, p - 1);
    // p divides b * (b^(p-1) - 1)
    assert Pow(b, p) - b == b * (Pow(b, p - 1) - 1);
    PrimeCoprime(p, b);
    GaussLemma(p, b, Pow(b, p - 1) - 1);
    CongruentIffMod(Pow(b, p - 1), 1, p);
    ModUnique(1, p, 0, 1);
    PowMod(a, p - 1, p);
  }
}
