/** `miller_rabin(n, s)` (main.py, lines 30-57). The `s` random bases that
    Python draws with `random.randint(2, n - 2)` are passed in as the
    sequence `witnesses`, so `s` is its length and a negative `s` (an empty
    `range`) is the empty sequence. */
module MillerRabin {
  import opened Modular
  import opened Euclid
  import opened Powers
  import opened Fermat

  /** `n - 1 == 2^r * d` with `d` odd. */
  datatype Decomposition = Decomposition(r: nat, d: nat)

  /** The loop at lines 39-42: halve `m` while it is even. */
  function Halvings(m: nat): (dec: Decomposition)
    requires m > 0
    ensures dec.d % 2 == 1
    ensures Pow(2, dec.r) * dec.d == m
    decreases m
  {
    if m % 2 == 0 then
      var h := Halvings(m / 2);
      assert Pow(2, h.r + 1) * h.d == 2 * (Pow(2, h.r) * h.d);
      Decomposition(h.r + 1, h.d)
    else Decomposition(0, m)
  }

  /** The decomposition is unique: any `2^r * d == m` with `d` odd is the one
      the loop finds. */
  lemma {:induction false} DecompositionUnique(m: nat, r: nat, d: nat)
    requires m > 0 && d % 2 == 1 && Pow(2, r) * d == m
    ensures Halvings(m) == Decomposition(r, d)
    decreases r
  {
    if r == 0 {
      assert m == d;
    } else {
      assert m == 2 * (Pow(2, r - 1) * d);
      DecompositionUnique(m / 2, r - 1, d);
    }
  }

  /** The halving loop as written. */
  method Decompose(m: int) returns (dec: Decomposition)
    requires m > 0
    ensures dec == Halvings(m)
  {
    var r: nat, d: nat := 0, m;
    while d % 2 == 0
      invariant d > 0
      invariant Halvings(m) == Decomposition(r + Halvings(d).r, Halvings(d).d)
      decreases d
    {
      r := r + 1;
      d := d / 2;
    }
    dec := Decomposition(r, d);
  }

  /** The inner loop at lines 51-56: square `x` modulo `n` up to `k` times,
      succeeding as soon as `n - 1` appears. `range(k)` is empty for `k <= 0`. */
  predicate SquaringReaches(x: int, k: int, n: int)
    requires n > 0
    decreases if k > 0 then k else 0
  {
    k > 0 && (var y := ModPow(x, 2, n); y == n - 1 || SquaringReaches(y, k - 1, n))
  }

  /** One round with base `a` (lines 46-56): the round passes when `a^d mod n`
      is 1 or `n - 1`, or when `n - 1` appears among the next `r - 1` squarings. */
  predicate RoundPasses(n: int, a: int, dec: Decomposition)
    requires n > 0
  {
    var x := ModPow(a, dec.d, n);
    x == 1 || x == n - 1 || SquaringReaches(x, dec.r - 1, n)
  }

  /** `miller_rabin(n, len(witnesses))` with the bases `witnesses`: `True`
      means "probably prime". */
  function MillerRabin(n: int, witnesses: seq<int>): (probablyPrime: bool)
    ensures probablyPrime ==> n == 2 || (n >= 3 && n % 2 == 1)
    ensures n == 2 || n == 3 ==> probablyPrime
  {
    if n < 2 then false
    else if n == 2 || n == 3 then true
    else if n % 2 == 0 then false
    else
      var dec := Halvings(n - 1);
      forall i :: 0 <= i < |witnesses| ==> RoundPasses(n, witnesses[i], dec)
  }

  // ---------------------------------------------------------------------
  // An independent reference: strong probable primes.

  /** `a^(2^i * d) mod n`, the `i`-th element of the squaring sequence. */
  function Chain(n: int, a: int, d: nat, i: nat): int
    requires n > 0
  {
    Pow(a, Pow(2, i) * d) % n
  }

  /** The textbook definition: `n` is a strong probable prime to base `a` when
      `a^d == 1` or `a^(2^i * d) == -1 (mod n)` for some `0 <= i < r`. */
  predicate StrongProbablePrime(n: int, a: int, dec: Decomposition)
    requires n > 0
  {
    Pow(a, dec.d) % n == 1 || exists i :: 0 <= i < dec.r && Chain(n, a, dec.d, i) == n - 1
  }

  /** Squaring a chain element modulo `n` gives the next one. */
  lemma ChainSquare(n: int, a: int, d: nat, i: nat)
    requires n > 0
    ensures ModPow(Chain(n, a, d, i), 2, n) == Chain(n, a, d, i + 1)
    ensures (Chain(n, a, d, i) * Chain(n, a, d, i)) % n == Chain(n, a, d, i + 1)
  {
    var e := Pow(2, i) * d;
    var c := Pow(a, e);
    DoubleExponent(i, d);
    PowMul(a, e, 2);
    assert Pow(a, Pow(2, i + 1) * d) == Pow(c, 2);
    PowMod(c, 2, n);
    PowTwo(c);
    PowTwo(c % n);
  }

  lemma DoubleExponent(i: nat, d: nat)
    ensures Pow(2, i + 1) * d == (Pow(2, i) * d) * 2
  {
    assert Pow(2, i + 1) == 2 * Pow(2, i);
  }

  lemma PowTwo(x: int)
    ensures Pow(x, 2) == x * x
  {
    assert Pow(x, 1) == x;
  }

  lemma ChainStart(n: int, a: int, d: nat)
    requires n > 0
    ensures Chain(n, a, d, 0) == Pow(a, d) % n == ModPow(a, d, n)
  {
  }

  /** The squaring loop started at chain element `j` reaches `n - 1` within
      `k` steps exactly when some element `j + 1 .. j + k` is `n - 1`. */
  lemma {:induction false} SquaringReachesChain(n: int, a: int, d: nat, j: nat, k: int)
    requires n > 0
    ensures SquaringReaches(Chain(n, a, d, j), k, n) <==>
      exists i :: j < i <= j + k && Chain(n, a, d, i) == n - 1
    decreases if k > 0 then k else 0
  {
    if k > 0 {
      ChainSquare(n, a, d, j);
      SquaringReachesChain(n, a, d, j + 1, k - 1);
      if exists i :: j < i <= j + k && Chain(n, a, d, i) == n - 1 {
        var i :| j < i <= j + k && Chain(n, a, d, i) == n - 1;
        if i > j + 1 {
          assert j + 1 < i <= j + 1 + (k - 1);
        }
      }
    }
  }

  /** A round passes exactly when `n` is a strong probable prime to the base
      (for odd `n >= 3`, where `r >= 1`). */
  lemma RoundPassesIffStrongProbablePrime(n: int, a: int)
    requires n >= 3 && n % 2 == 1
    ensures RoundPasses(n, a, Halvings(n - 1)) <==> StrongProbablePrime(n, a, Halvings(n - 1))
  {
    OddHasHalvings(n);
    RoundIffStrong(n, a, Halvings(n - 1));
  }

  lemma RoundIffStrong(n: int, a: int, dec: Decomposition)
    requires n > 0 && dec.r >= 1
    ensures RoundPasses(n, a, dec) <==> StrongProbablePrime(n, a, dec)
  {
    var x := ModPow(a, dec.d, n);
    ChainStart(n, a, dec.d);
    assert x == Chain(n, a, dec.d, 0);
    SquaringReachesChain(n, a, dec.d, 0, dec.r - 1);
    ShiftWitness(n, a, dec);
  }

  /** For odd `n >= 3` the number `n - 1` is even, so the loop halves it at least once. */
  lemma OddHasHalvings(n: int)
    requires n >= 3 && n % 2 == 1
    ensures Halvings(n - 1).r >= 1
  {
    var m := n - 1;
    assert m == 2 * (n / 2);
    assert m % 2 == 0;
  }

  /** An index `0 <= i < r` is either 0 or one of `1 .. r - 1`. */
  lemma ShiftWitness(n: int, a: int, dec: Decomposition)
    requires n > 0 && dec.r >= 1
    ensures (exists i :: 0 <= i < dec.r && Chain(n, a, dec.d, i) == n - 1) <==>
      (Chain(n, a, dec.d, 0) == n - 1 || exists i :: 0 < i <= dec.r - 1 && Chain(n, a, dec.d, i) == n - 1)
  {
  }

  // ---------------------------------------------------------------------
  // Soundness: a prime is never declared composite.

  /** The only square roots of 1 modulo a prime are 1 and `p - 1`. */
  lemma SqrtOfOne(p: int, x: int)
    requires IsPrime(p) && 0 <= x < p && (x * x) % p == 1
    ensures x == 1 || x == p - 1
  {
    assert (x - 1) * (x + 1) == x * x - 1;
    CongruentIffMod(x * x, 1, p);
    PrimeDividesProduct(p, x - 1, x + 1);
    if Divides(p, x - 1) {
      if x - 1 > 0 {
        DivisorBound(p, x - 1);
      }
    } else {
      DivisorBound(p, x + 1);
    }
  }

  /** Below the first element equal to 1 the chain cannot start at 1 or pass
      through `n - 1`; so a failing round never reaches 1. */
  lemma {:induction false} ChainAvoidsOne(n: int, a: int, dec: Decomposition, i: nat)
    requires IsPrime(n) && i <= dec.r
    requires Chain(n, a, dec.d, 0) != 1
    requires forall j :: 0 <= j < dec.r ==> Chain(n, a, dec.d, j) != n - 1
    ensures Chain(n, a, dec.d, i) != 1
    decreases i
  {
    if i > 0 {
      ChainAvoidsOne(n, a, dec, i - 1);
      ChainSquare(n, a, dec.d, i - 1);
      var x := Chain(n, a, dec.d, i - 1);
      if Chain(n, a, dec.d, i) == 1 {
        SqrtOfOne(n, x);
        assert false;
      }
    }
  }

  /** For an odd prime every base it does not divide passes a round. */
  lemma PrimeRoundPasses(n: int, a: int)
    requires IsPrime(n) && n >= 3 && n % 2 == 1 && a % n != 0
    ensures RoundPasses(n, a, Halvings(n - 1))
  {
    var dec := Halvings(n - 1);
    RoundPassesIffStrongProbablePrime(n, a);
    if !StrongProbablePrime(n, a, dec) {
      ChainStart(n, a, dec.d);
      ChainAvoidsOne(n, a, dec, dec.r);
      FermatLittle(n, a);
      assert false;
    }
  }

  /** `miller_rabin` never answers `False` for a prime, whichever bases it
      draws from `[2, n - 2]` and however many rounds it runs. */
  lemma PrimeNeverRejected(n: int, witnesses: seq<int>)
    requires IsPrime(n)
    requires forall i :: 0 <= i < |witnesses| ==> witnesses[i] % n != 0
    ensures MillerRabin(n, witnesses)
  {
    if n > 3 {
      assert !Divides(2, n);
      forall i | 0 <= i < |witnesses|
        ensures RoundPasses(n, witnesses[i], Halvings(n - 1))
      {
        PrimeRoundPasses(n, witnesses[i]);
      }
    }
  }

  /** A round with a base `a` fails exactly when `a` is a witness to
      compositeness; for odd `n >= 5` the answer is "probably prime" exactly
      when `n` is a strong probable prime to every base. */
  lemma MillerRabinCharacterization(n: int, witnesses: seq<int>)
    requires n >= 5 && n % 2 == 1
    ensures MillerRabin(n, witnesses) <==>
      forall i :: 0 <= i < |witnesses| ==> StrongProbablePrime(n, witnesses[i], Halvings(n - 1))
  {
    forall i | 0 <= i < |witnesses|
      ensures RoundPasses(n, witnesses[i], Halvings(n - 1)) <==> StrongProbablePrime(n, witnesses[i], Halvings(n - 1))
    {
      RoundPassesIffStrongProbablePrime(n, witnesses[i]);
    }
  }

  /** With no rounds (`s <= 0`) only the early checks decide: every odd
      number from 5 on is "probably prime", 9 included. */
  lemma NoRoundsTrustsOddNumbers(n: int)
    ensures MillerRabin(n, []) <==> n == 2 || n == 3 || (n >= 5 && n % 2 == 1)
  {
  }

  /** The rounds are independent: running two batches of bases is the
      conjunction of running each. */
  lemma RoundsCompose(n: int, w1: seq<int>, w2: seq<int>)
    ensures MillerRabin(n, w1 + w2) <==> MillerRabin(n, w1) && MillerRabin(n, w2)
  {
    if n >= 5 && n % 2 == 1 {
      var dec := Halvings(n - 1);
      if MillerRabin(n, w1) && MillerRabin(n, w2) {
        forall i | 0 <= i < |w1 + w2|
          ensures RoundPasses(n, (w1 + w2)[i], dec)
        {
          if i < |w1| {
            assert (w1 + w2)[i] == w1[i];
          } else {
            assert (w1 + w2)[i] == w2[i - |w1|];
          }
        }
      }
      if MillerRabin(n, w1 + w2) {
        forall i | 0 <= i < |w1|
          ensures RoundPasses(n, w1[i], dec)
        {
          assert (w1 + w2)[i] == w1[i];
        }
        forall i | 0 <= i < |w2|
          ensures RoundPasses(n, w2[i], dec)
        {
          assert (w1 + w2)[i + |w1|] == w2[i];
        }
      }
    }
  }

  /** `miller_rabin` as written: the outer `for` over the bases, `continue`
      when `a^d mod n` is 1 or `n - 1`, the inner `for` with `break`, and its
      `else` that returns `False`. */
  method MillerRabinTest(n: int, witnesses: seq<int>) returns (probablyPrime: bool)
    ensures probablyPrime == MillerRabin(n, witnesses)
  {
    if n < 2 {
      return false;
    }
    if n == 2 || n == 3 {
      return true;
    }
    if n % 2 == 0 {
      return false;
    }
    var dec := Decompose(n - 1);
    var i := 0;
    while i < |witnesses|
      invariant 0 <= i <= |witnesses|
      invariant forall j :: 0 <= j < i ==> RoundPasses(n, witnesses[j], dec)
    {
      var a := witnesses[i];
      var x := ModPow(a, dec.d, n);
      if x == 1 || x == n - 1 {
        i := i + 1;
        continue;
      }
      var k := 0;
      var found := false;
      while k < dec.r - 1
        invariant 0 <= k
        invariant !found
        invariant RoundPasses(n, a, dec) <==> SquaringReaches(x, dec.r - 1 - k, n)
        decreases dec.r - 1 - k
      {
        var y := ModPow(x, 2, n);
        if y == n - 1 {
          found := true;
          break;
        }
        x := y;
        k := k + 1;
      }
      if !found {
        return false;
      }
      i := i + 1;
    }
    return true;
  }

  // ---------------------------------------------------------------------
  // The unit tests at main.py, lines 76-85.

  /** The inner loop with `pow(x, 2, n)` written out as `x * x % n`. */
  predicate SquaringReachesByValues(x: int, k: int, n: int)
    requires n > 0
    decreases if k > 0 then k else 0
  {
    k > 0 && (var y := (x * x) % n; y == n - 1 || SquaringReachesByValues(y, k - 1, n))
  }

  lemma {:induction false} SquaringReachesValues(x: int, k: int, n: int)
    requires n > 0
    ensures SquaringReaches(x, k, n) <==> SquaringReachesByValues(x, k, n)
    decreases if k > 0 then k else 0
  {
    if k > 0 {
      PowTwo(x);
      SquaringReachesValues((x * x) % n, k - 1, n);
    }
  }

  /** A round decided from the values it computes: `a^d mod n` and its squarings. */
  predicate RoundPassesByValues(n: int, a: int, dec: Decomposition)
    requires n > 0
  {
    var x := Pow(a, dec.d) % n;
    x == 1 || x == n - 1 || SquaringReachesByValues(x, dec.r - 1, n)
  }

  lemma RoundPassesValues(n: int, a: int, dec: Decomposition)
    requires n > 0
    ensures RoundPasses(n, a, dec) <==> RoundPassesByValues(n, a, dec)
  {
    SquaringReachesValues(Pow(a, dec.d) % n, dec.r - 1, n);
  }

  /** An odd power keeps the sign of its base. */
  lemma {:induction false} PowNegOdd(a: int, e: nat)
    requires e % 2 == 1
    ensures Pow(-a, e) == -Pow(a, e)
    decreases e
  {
    if e > 1 {
      PowNegOdd(a, e - 2);
      assert Pow(-a, e) == (-a) * ((-a) * Pow(-a, e - 2));
      assert Pow(a, e) == a * (a * Pow(a, e - 2));
    }
  }

  /** Squaring forgets the sign: `x` and `(-x) mod n` square to the same residue. */
  lemma SquareOfNegation(x: int, n: int)
    requires n > 0
    ensures (((-x) % n) * ((-x) % n)) % n == (x * x) % n
  {
    MulMod(-x, -x, n);
    assert (-x) * (-x) == x * x;
  }

  /** The residue of `-x` for a residue `x`. */
  lemma NegatedResidue(x: int, n: int)
    requires 0 <= x < n
    ensures (-x) % n == if x == 0 then 0 else n - x
  {
    if x > 0 {
      ModUnique(-x, n, -1, n - x);
    }
  }

  /** Negation commutes with reduction modulo `n`. */
  lemma NegateResidue(p: int, n: int)
    requires n > 0
    ensures (-p) % n == (-(p % n)) % n
  {
    var q, r := p / n, p % n;
    if r == 0 {
      ModUnique(-p, n, -q, 0);
    } else {
      assert -p == n * (-q - 1) + (n - r);
      ModUnique(-p, n, -q - 1, n - r);
      ModUnique(-r, n, -1, n - r);
    }
  }

  /** `(n - a)^d` is congruent to `-(a^d)` modulo `n` for odd `d`. */
  lemma MirrorPower(n: int, a: int, d: nat)
    requires n > 0 && d % 2 == 1
    ensures Pow(n - a, d) % n == (-(Pow(a, d) % n)) % n
  {
    DividesSelf(n);
    assert (n - a) - (-a) == n;
    CongruentIffMod(n - a, -a, n);
    PowMod(n - a, d, n);
    PowMod(-a, d, n);
    PowNegOdd(a, d);
    NegateResidue(Pow(a, d), n);
  }

  /** Bases `a` and `n - a` pass or fail together when `d` is odd, because
      `(n - a)^d` is congruent to `-(a^d)` modulo `n`. */
  lemma RoundPassesMirror(n: int, a: int, dec: Decomposition)
    requires n > 2 && dec.d % 2 == 1
    ensures RoundPassesByValues(n, a, dec) <==> RoundPassesByValues(n, n - a, dec)
  {
    var x := Pow(a, dec.d) % n;
    var x' := Pow(n - a, dec.d) % n;
    MirrorPower(n, a, dec.d);
    NegatedResidue(x, n);
    SquareOfNegation(x, n);
    assert (x' * x') % n == (x * x) % n;
    if dec.r - 1 > 0 {
      assert SquaringReachesByValues(x', dec.r - 1, n) <==> SquaringReachesByValues(x, dec.r - 1, n);
    }
  }

  /** Every base `miller_rabin` may draw for `n`: `random.randint(2, n - 2)`. */
  predicate InDrawRange(n: int, witnesses: seq<int>) {
    forall i :: 0 <= i < |witnesses| ==> 2 <= witnesses[i] <= n - 2
  }

  /** A prime, as trial division up to `k` shows it, passes with every draw. */
  lemma PrimeAccepted(n: int, k: int, witnesses: seq<int>)
    requires n >= 5 && 1 <= k < n && (k + 1) * (k + 1) > n && NoDivisorBetween(n, 2, k)
    requires InDrawRange(n, witnesses)
    ensures MillerRabin(n, witnesses)
  {
    PrimeByTrialDivision(n, k);
    forall i | 0 <= i < |witnesses|
      ensures witnesses[i] % n != 0
    {
      ModUnique(witnesses[i], n, 0, witnesses[i]);
    }
    PrimeNeverRejected(n, witnesses);
  }

  /** One failing base among the draws is enough to answer "composite". */
  lemma FailingBaseRejects(n: int, a: int, witnesses: seq<int>)
    requires n >= 5 && n % 2 == 1 && a in witnesses
    requires !RoundPassesByValues(n, a, Halvings(n - 1))
    ensures !MillerRabin(n, witnesses)
  {
    RoundPassesValues(n, a, Halvings(n - 1));
  }

  /** Rounds that pass by their values make the whole test pass. */
  lemma PassingBasesAccepted(n: int, witnesses: seq<int>)
    requires n >= 5 && n % 2 == 1
    requires forall i :: 0 <= i < |witnesses| ==> RoundPassesByValues(n, witnesses[i], Halvings(n - 1))
    ensures MillerRabin(n, witnesses)
  {
    forall i | 0 <= i < |witnesses|
      ensures RoundPasses(n, witnesses[i], Halvings(n - 1))
    {
      RoundPassesValues(n, witnesses[i], Halvings(n - 1));
    }
  }

  /** When the bases in `[2, n - 2]` whose round passes are exactly `liars`,
      a draw answers "probably prime" exactly when all its bases are liars. */
  lemma DrawDecides(n: int, liars: set<int>, witnesses: seq<int>)
    requires n >= 5 && n % 2 == 1 && InDrawRange(n, witnesses)
    requires forall a :: 2 <= a <= n - 2 ==> (RoundPassesByValues(n, a, Halvings(n - 1)) <==> a in liars)
    ensures MillerRabin(n, witnesses) <==> forall i :: 0 <= i < |witnesses| ==> witnesses[i] in liars
  {
    var dec := Halvings(n - 1);
    if forall i :: 0 <= i < |witnesses| ==> witnesses[i] in liars {
      PassingBasesAccepted(n, witnesses);
    } else {
      var i :| 0 <= i < |witnesses| && witnesses[i] !in liars;
      FailingBaseRejects(n, witnesses[i], witnesses);
    }
  }
}
