/** Natural powers and Python's three-argument `pow(a, e, n)`, which the
    Miller-Rabin test uses for `a^d mod n` and for each squaring step. */
module Powers {
  import opened Modular

  /** `a` raised to the natural power `e`. */
  function Pow(a: int, e: nat): (r: int)
    ensures a > 0 ==> r > 0
  {
    if e == 0 then 1 else a * Pow(a, e - 1)
  }

  lemma {:induction false} PowAdd(a: int, e1: nat, e2: nat)
    ensures Pow(a, e1 + e2) == Pow(a, e1) * Pow(a, e2)
    decreases e1
  {
    if e1 > 0 {
      PowAdd(a, e1 - 1, e2);
      MulAssoc(a, Pow(a, e1 - 1), Pow(a, e2));
    }
  }

  lemma {:induction false} PowMul(a: int, e1: nat, e2: nat)
    ensures Pow(a, e1 * e2) == Pow(Pow(a, e1), e2)
    decreases e2
  {
    if e2 > 0 {
      PowMul(a, e1, e2 - 1);
      assert e1 * e2 == e1 + e1 * (e2 - 1);
      PowAdd(a, e1, e1 * (e2 - 1));
    }
  }

  /** Powers respect congruence: a base may be replaced by its remainder. */
  lemma {:induction false} PowMod(a: int, e: nat, n: int)
    requires n > 0
    ensures Pow(a % n, e) % n == Pow(a, e) % n
    decreases e
  {
    if e > 0 {
      PowMod(a, e - 1, n);
      MulMod(a % n, Pow(a % n, e - 1), n);
      MulMod(a, Pow(a, e - 1), n);
      assert (a % n) % n == a % n by {
        ModUnique(a % n, n, 0, a % n);
      }
    }
  }

  /** Python's `pow(a, e, n)` for a positive modulus, by square-and-multiply
      on the bits of `e`. The value is `a^e mod n`; in particular
      `pow(a, 0, 1)` is 0. */
  function ModPow(a: int, e: nat, n: int): (r: int)
    requires n > 0
    ensures 0 <= r < n
    ensures r == Pow(a, e) % n
    decreases e
  {
    if e == 0 then 1 % n
    else
      var h := ModPow(a, e / 2, n);
      var sq := (h * h) % n;
      ModPowStep(a, e, n, h);
      if e % 2 == 0 then sq else (sq * (a % n)) % n
  }

  /** One square-and-multiply step: from `a^(e/2) mod n` to `a^e mod n`. */
  lemma ModPowStep(a: int, e: nat, n: int, h: int)
    requires n > 0 && e > 0 && h == Pow(a, e / 2) % n
    ensures e % 2 == 0 ==> (h * h) % n == Pow(a, e) % n
    ensures e % 2 == 1 ==> (((h * h) % n) * (a % n)) % n == Pow(a, e) % n
  {
    var half := Pow(a, e / 2);
    MulMod(half, half, n);
    PowAdd(a, e / 2, e / 2);
    if e % 2 == 1 {
      PowAdd(a, e / 2 + e / 2, 1);
      assert Pow(a, 1) == a;
      MulMod(half * half, a, n);
      assert ((half * half) % n) % n == (half * half) % n by {
        ModUnique((half * half) % n, n, 0, (half * half) % n);
      }
    }
  }
}
