/** `mul_inv(a, b)`: the modular multiplicative inverse of `a` modulo `b` by
    the extended Euclidean algorithm (main.py, lines 17-27).

    The loop replaces `(a, b)` by `(b, a % b)` and the coefficient pair
    `(x0, x1)` by `(x1 - q * x0, x0)` with `q = a / b`, while `a > 1 && b > 0`.
    Inside the loop `b > 0`, so Python's `//` and `%` are Dafny's `/` and `%`.
    The modulus 1 is answered with 1 by convention, and a negative final
    coefficient is moved up by the original modulus. */
module ModularInverse {
  import opened Modular
  import opened Euclid

  /** The coefficient `x1` that the loop of `mul_inv` leaves behind when started
      in the state `(a, b, x0, x1)`. */
  function EuclidLoop(a: int, b: int, x0: int, x1: int): int
    decreases if b > 0 then b else 0
  {
    if a > 1 && b > 0 then EuclidLoop(b, a % b, x1 - (a / b) * x0, x0) else x1
  }

  /** `mul_inv(a, b)` for arbitrary integers. When the loop cannot start
      (`a <= 1` or `b <= 0`) and for the modulus 1, the answer is 1. */
  function MulInv(a: int, b: int): (x: int)
    ensures a <= 1 || b <= 1 ==> x == 1
  {
    if b == 1 then 1
    else
      var x1 := EuclidLoop(a, b, 0, 1);
      if x1 < 0 then x1 + b else x1
  }

  /** What the loop keeps true, for an original pair `(a0, b0)` with `a0 >= 1`
      and `b0 > 1`:
      - the gcd of the current pair is the gcd of the original pair;
      - Bezout: `x1 * a0 == a` and `x0 * a0 == b` modulo `b0`;
      - the coefficients have opposite signs and `|x0| * a + |x1| * b == b0`,
        which bounds `|x1|` by `b0`. */
  ghost predicate EuclidInvariant(a0: int, b0: int, a: int, b: int, x0: int, x1: int)
  {
    && 1 <= a0 && 1 < b0
    && 1 <= a && 0 <= b
    && Gcd(a, b) == Gcd(a0, b0)
    && Congruent(x1 * a0, a, b0)
    && Congruent(x0 * a0, b, b0)
    && ((x0 <= 0 && 0 <= x1) || (x1 <= 0 && 0 <= x0))
    && Abs(x0) * a + Abs(x1) * b == b0
    && Abs(x1) < b0
  }

  lemma EuclidInit(a0: int, b0: int)
    requires 1 <= a0 && 1 < b0
    ensures EuclidInvariant(a0, b0, a0, b0, 0, 1)
  {
    DividesSelf(b0);
    CongruentRefl(a0, b0);
    assert 0 * a0 - b0 == b0 * -1;
    DividesMultiple(b0, -1);
  }

  /** One iteration of the loop preserves the invariant. */
  lemma EuclidStep(a0: int, b0: int, a: int, b: int, x0: int, x1: int)
    requires EuclidInvariant(a0, b0, a, b, x0, x1) && a > 1 && b > 0
    ensures EuclidInvariant(a0, b0, b, a % b, x1 - (a / b) * x0, x0)
  {
    var q := a / b;
    DivisionFacts(a, b);
    StepBezout(a0, b0, a, b, q, x0, x1);
    StepMagnitudes(a, b, q, x0, x1);
    assert Abs(x0) * a + Abs(x1) * b == b0;
    StepBound(a, b, b0, x0, x1);
  }

  lemma DivisionFacts(a: int, b: int)
    requires a > 1 && b > 0
    ensures a == b * (a / b) + a % b && a / b >= 0 && 0 <= a % b < b
  {
  }

  lemma StepBezout(a0: int, b0: int, a: int, b: int, q: int, x0: int, x1: int)
    requires Congruent(x1 * a0, a, b0) && Congruent(x0 * a0, b, b0)
    requires b > 0 && a == b * q + a % b
    ensures Congruent((x1 - q * x0) * a0, a % b, b0)
  {
    assert (x1 - q * x0) * a0 - a % b == (x1 * a0 - a) * 1 + (x0 * a0 - b) * -q;
    DividesLinear(b0, x1 * a0 - a, x0 * a0 - b, 1, -q);
  }

  /** With opposite signs and `q >= 0`, the magnitude of `x1 - q * x0` is
      `|x1| + q * |x0|`, and the weighted sum of magnitudes is unchanged. */
  lemma StepMagnitudes(a: int, b: int, q: int, x0: int, x1: int)
    requires b > 0 && q >= 0 && a == b * q + a % b
    requires (x0 <= 0 && 0 <= x1) || (x1 <= 0 && 0 <= x0)
    ensures var x0' := x1 - q * x0;
      && ((x0 <= 0 && 0 <= x0') || (x0' <= 0 && 0 <= x0))
      && Abs(x0') * b + Abs(x0) * (a % b) == Abs(x0) * a + Abs(x1) * b
  {
    var x0' := x1 - q * x0;
    if x0 <= 0 {
      assert q * x0 <= 0;
      assert Abs(x0') == Abs(x1) + q * Abs(x0);
    } else {
      assert q * x0 >= 0;
      assert Abs(x0') == Abs(x1) + q * Abs(x0);
    }
    calc {
      Abs(x0') * b + Abs(x0) * (a % b);
      (Abs(x1) + q * Abs(x0)) * b + Abs(x0) * (a - b * q);
      Abs(x1) * b + Abs(x0) * a;
    }
  }

  /** While `a >= 2`, the weighted sum keeps `|x0|` below `b0`. */
  lemma StepBound(a: int, b: int, b0: int, x0: int, x1: int)
    requires a > 1 && b > 0 && b0 > 1 && Abs(x0) * a + Abs(x1) * b == b0
    ensures Abs(x0) < b0
  {
    assert Abs(x1) * b >= 0;
    assert Abs(x0) * a >= Abs(x0) * 2;
  }

  /** When the loop stops on a coprime pair it stops at `a == 1`, with
      `x1` an inverse of `a0` strictly between `-b0` and `b0`. */
  lemma EuclidExit(a0: int, b0: int, a: int, b: int, x0: int, x1: int)
    requires EuclidInvariant(a0, b0, a, b, x0, x1) && !(a > 1 && b > 0)
    requires Gcd(a0, b0) == 1
    ensures a == 1
    ensures Congruent(x1 * a0, 1, b0) && -b0 < x1 < b0
  {
  }

  /** Moving a negative coefficient up by the modulus gives the canonical inverse. */
  lemma Normalize(a0: int, b0: int, x1: int)
    requires b0 > 1 && Congruent(x1 * a0, 1, b0) && -b0 < x1 < b0
    ensures var x := if x1 < 0 then x1 + b0 else x1;
      0 <= x < b0 && (a0 * x) % b0 == 1
  {
    var x := if x1 < 0 then x1 + b0 else x1;
    DividesSelf(b0);
    DividesLinear(b0, x1 * a0 - 1, b0, 1, if x1 < 0 then a0 else 0);
    assert x * a0 - 1 == (x1 * a0 - 1) * 1 + b0 * (if x1 < 0 then a0 else 0);
    CongruentIffMod(a0 * x, 1, b0);
    ModUnique(1, b0, 0, 1);
  }

  lemma {:induction false} EuclidLoopSound(a0: int, b0: int, a: int, b: int, x0: int, x1: int)
    requires EuclidInvariant(a0, b0, a, b, x0, x1) && Gcd(a0, b0) == 1
    ensures var x := EuclidLoop(a, b, x0, x1); Congruent(x * a0, 1, b0) && -b0 < x < b0
    decreases b
  {
    if a > 1 && b > 0 {
      EuclidStep(a0, b0, a, b, x0, x1);
      EuclidLoopSound(a0, b0, b, a % b, x1 - (a / b) * x0, x0);
    } else {
      EuclidExit(a0, b0, a, b, x0, x1);
    }
  }

  /** For a modulus above 1 and a positive `a` coprime to it, `mul_inv`
      returns the inverse of `a` in `[0, b)`. */
  lemma MulInvIsInverse(a: int, b: int)
    requires 1 <= a && 1 < b && Gcd(a, b) == 1
    ensures 0 <= MulInv(a, b) < b
    ensures (a * MulInv(a, b)) % b == 1
  {
    EuclidInit(a, b);
    EuclidLoopSound(a, b, a, b, 0, 1);
    Normalize(a, b, EuclidLoop(a, b, 0, 1));
  }

  /** Without coprimality nothing is promised: `mul_inv(30, 4)` is 1, and
      `30 * 1` is 2 modulo 4. */
  lemma MulInvWithoutInverse()
    ensures MulInv(30, 4) == 1 && (30 * MulInv(30, 4)) % 4 == 2
    ensures Gcd(30, 4) == 2
  {
  }

  /** The loop of `mul_inv` as written, with the invariant it keeps. */
  method MulInvLoop(a: int, b: int) returns (x: int)
    ensures x == MulInv(a, b)
    ensures 1 <= a && 1 < b && Gcd(a, b) == 1 ==> 0 <= x < b && (a * x) % b == 1
  {
    if b == 1 {
      return 1;
    }
    var u, v, x0, x1 := a, b, 0, 1;
    if 1 <= a && 1 < b {
      EuclidInit(a, b);
    }
    while u > 1 && v > 0
      invariant EuclidLoop(u, v, x0, x1) == EuclidLoop(a, b, 0, 1)
      invariant 1 <= a && 1 < b ==> EuclidInvariant(a, b, u, v, x0, x1)
      decreases v
    {
      if 1 <= a && 1 < b {
        EuclidStep(a, b, u, v, x0, x1);
      }
      var q := u / v;
      u, v := v, u % v;
      x0, x1 := x1 - q * x0, x0;
    }
    if 1 <= a && 1 < b && Gcd(a, b) == 1 {
      EuclidExit(a, b, u, v, x0, x1);
      Normalize(a, b, x1);
    }
    if x1 < 0 {
      x1 := x1 + b;
    }
    x := x1;
  }
}
