/** `chinese_remainder_theorem(remainders, moduli)` (main.py, lines 6-14):
    the sum of `r * mul_inv(p, m) * p` over the pairs `(r, m)` that `zip`
    forms, where `p = prod // m` and `prod` is the product of all moduli,
    reduced with Python's `%` modulo `prod`.

    The two exceptions the Python raises become errors: `reduce` on an empty
    list of moduli, and a zero modulus (which makes `prod` zero, so the final
    `% prod` divides by zero even when `zip` never reaches that modulus). */
module ChineseRemainder {
  import opened Modular
  import opened Euclid
  import opened FloorDivision
  import opened ModularInverse

  datatype CrtError = EmptyModuli | ZeroModulus

  datatype CrtResult = Solved(x: int) | Failed(error: CrtError)

  /** The product of a sequence, `reduce(lambda a, b: a * b, s)` for non-empty `s`. */
  function Product(s: seq<int>): int {
    if |s| == 0 then 1 else s[0] * Product(s[1..])
  }

  /** The number of pairs `zip` forms: the shorter length. */
  function Pairs(rs: seq<int>, ms: seq<int>): nat {
    if |rs| < |ms| then |rs| else |ms|
  }

  /** The contribution of one pair to the total. */
  function Term(r: int, m: int, prod: int): int
    requires m != 0
  {
    var p := FloorDiv(prod, m);
    r * MulInv(p, m) * p
  }

  predicate NonZero(ms: seq<int>) {
    forall i :: 0 <= i < |ms| ==> ms[i] != 0
  }

  /** The running total after the first `k` pairs. */
  function Total(rs: seq<int>, ms: seq<int>, prod: int, k: nat): int
    requires k <= |rs| && k <= |ms| && NonZero(ms)
  {
    if k == 0 then 0 else Total(rs, ms, prod, k - 1) + Term(rs[k - 1], ms[k - 1], prod)
  }

  /** A product is zero exactly when one of its factors is. */
  lemma {:induction false} ProductZero(s: seq<int>)
    ensures Product(s) == 0 <==> !NonZero(s)
  {
    if |s| > 0 {
      ProductZero(s[1..]);
      assert forall i :: 1 <= i < |s| ==> s[1..][i - 1] == s[i];
    }
  }

  /** `chinese_remainder_theorem` with its exceptions as errors. For a
      positive product the solution lies in `[0, prod)`; for a negative one,
      Python's `%` puts it in `(prod, 0]`. */
  function Crt(rs: seq<int>, ms: seq<int>): (res: CrtResult)
    ensures |ms| == 0 ==> res == Failed(EmptyModuli)
    ensures |ms| > 0 ==> (res.Failed? <==> !NonZero(ms))
    ensures res.Solved? && Product(ms) > 0 ==> 0 <= res.x < Product(ms)
    ensures res.Solved? && Product(ms) < 0 ==> Product(ms) < res.x <= 0
  {
    if |ms| == 0 then Failed(EmptyModuli)
    else
      var prod := Product(ms);
      ProductZero(ms);
      if prod == 0 then Failed(ZeroModulus)
      else Solved(FloorMod(Total(rs, ms, prod, Pairs(rs, ms)), prod))
  }

  // ---------------------------------------------------------------------
  // Correctness for positive, pairwise coprime moduli.

  predicate AllPositive(ms: seq<int>) {
    forall i :: 0 <= i < |ms| ==> ms[i] > 0
  }

  /** Distinct moduli have no common factor. */
  predicate PairwiseCoprime(ms: seq<int>)
    requires AllPositive(ms)
  {
    forall i, j :: 0 <= i < |ms| && 0 <= j < |ms| && i != j ==> Gcd(ms[i], ms[j]) == 1
  }

  /** `s` without its element at index `j`. */
  function Drop(s: seq<int>, j: nat): seq<int>
    requires j < |s|
  {
    s[..j] + s[j + 1..]
  }

  lemma DropIndex(s: seq<int>, j: nat, k: nat)
    requires j < |s| && k < |s| - 1
    ensures |Drop(s, j)| == |s| - 1
    ensures Drop(s, j)[k] == if k < j then s[k] else s[k + 1]
  {
  }

  lemma {:induction false} ProductDrop(s: seq<int>, j: nat)
    requires j < |s|
    ensures Product(s) == s[j] * Product(Drop(s, j))
    decreases j
  {
    if j == 0 {
      assert Drop(s, 0) == s[1..];
    } else {
      ProductDrop(s[1..], j - 1);
      assert Drop(s, j) == [s[0]] + Drop(s[1..], j - 1);
      assert Drop(s, j)[1..] == Drop(s[1..], j - 1);
      calc {
        Product(s);
        s[0] * Product(s[1..]);
        s[0] * (s[j] * Product(Drop(s[1..], j - 1)));
        s[j] * (s[0] * Product(Drop(s[1..], j - 1)));
        s[j] * Product(Drop(s, j));
      }
    }
  }

  lemma {:induction false} ProductPositive(s: seq<int>)
    requires AllPositive(s)
    ensures Product(s) > 0
  {
    if |s| > 0 {
      ProductPositive(s[1..]);
    }
  }

  /** Every positive element of a sequence divides its product. */
  lemma ElementDividesProduct(s: seq<int>, k: nat)
    requires k < |s| && s[k] > 0
    ensures Divides(s[k], Product(s))
  {
    ProductDrop(s, k);
    DividesMultiple(s[k], Product(Drop(s, k)));
  }

  /** The partial product `prod // m_j` is the product of the other moduli. */
  lemma PartialProduct(ms: seq<int>, j: nat)
    requires AllPositive(ms) && j < |ms|
    ensures FloorDiv(Product(ms), ms[j]) == Product(Drop(ms, j))
  {
    ProductDrop(ms, j);
    ModUnique(Product(ms), ms[j], Product(Drop(ms, j)), 0);
  }

  /** A product of positive numbers each coprime to `m` is coprime to `m`. */
  lemma {:induction false} CoprimeProduct(s: seq<int>, m: nat)
    requires AllPositive(s)
    requires forall k :: 0 <= k < |s| ==> Gcd(s[k], m) == 1
    ensures Product(s) > 0 && Gcd(Product(s), m) == 1
  {
    ProductPositive(s);
    if |s| == 0 {
      GcdOneLeft(m);
    } else {
      assert forall k :: 0 <= k < |s[1..]| ==> s[1..][k] == s[k + 1];
      CoprimeProduct(s[1..], m);
      ProductPositive(s[1..]);
      CoprimeMul(s[0], Product(s[1..]), m);
    }
  }

  /** The other moduli, multiplied together, are coprime to `m_i`. */
  lemma OthersCoprime(ms: seq<int>, i: nat)
    requires AllPositive(ms) && PairwiseCoprime(ms) && i < |ms|
    ensures Product(Drop(ms, i)) > 0 && Gcd(Product(Drop(ms, i)), ms[i]) == 1
  {
    var rest := Drop(ms, i);
    forall k | 0 <= k < |rest|
      ensures rest[k] > 0 && Gcd(rest[k], ms[i]) == 1
    {
      DropIndex(ms, i, k);
    }
    CoprimeProduct(rest, ms[i]);
  }

  /** A term for another pair vanishes modulo `m_i`, because `m_i` is one of
      the factors of its partial product. */
  lemma OtherTermVanishes(rs: seq<int>, ms: seq<int>, i: nat, j: nat)
    requires AllPositive(ms) && i < |ms| && j < |ms| && j < |rs| && i != j
    ensures Divides(ms[i], Term(rs[j], ms[j], Product(ms)))
  {
    var rest := Drop(ms, j);
    PartialProduct(ms, j);
    var k := if i < j then i else i - 1;
    DropIndex(ms, j, k);
    ElementDividesProduct(rest, k);
    var p := Product(rest);
    DividesMul(ms[i], p, rs[j] * MulInv(p, ms[j]));
  }

  /** The term of pair `i` is congruent to `r_i` modulo `m_i`: `mul_inv`
      supplies the inverse of the partial product. */
  lemma OwnTermIsRemainder(rs: seq<int>, ms: seq<int>, i: nat)
    requires AllPositive(ms) && PairwiseCoprime(ms) && i < |ms| && i < |rs|
    ensures Congruent(Term(rs[i], ms[i], Product(ms)), rs[i], ms[i])
  {
    var m := ms[i];
    var p := Product(Drop(ms, i));
    PartialProduct(ms, i);
    var inv := MulInv(p, m);
    assert Term(rs[i], m, Product(ms)) == rs[i] * inv * p;
    if m == 1 {
      OneDividesAll(rs[i] * inv * p - rs[i]);
    } else {
      OthersCoprime(ms, i);
      MulInvIsInverse(p, m);
      InverseCancels(rs[i], p, inv, m);
    }
  }

  /** Multiplying by a number and by its inverse leaves a remainder unchanged. */
  lemma InverseCancels(r: int, p: int, inv: int, m: int)
    requires m > 1 && (p * inv) % m == 1
    ensures Congruent(r * inv * p, r, m)
  {
    ModUnique(1, m, 0, 1);
    CongruentIffMod(p * inv, 1, m);
    DividesMul(m, p * inv - 1, r);
    assert (p * inv - 1) * r == r * inv * p - r;
  }

  /** Modulo `m_i`, the running total is the term of pair `i` once that pair
      has been added, and 0 before. */
  lemma {:induction false} TotalModulo(rs: seq<int>, ms: seq<int>, i: nat, k: nat)
    requires AllPositive(ms) && PairwiseCoprime(ms) && |rs| == |ms|
    requires i < |ms| && k <= |ms|
    ensures NonZero(ms)
    ensures Congruent(Total(rs, ms, Product(ms), k),
                      if i < k then rs[i] else 0, ms[i])
  {
    var prod := Product(ms);
    if k == 0 {
      CongruentRefl(0, ms[i]);
    } else {
      TotalModulo(rs, ms, i, k - 1);
      var t := Term(rs[k - 1], ms[k - 1], prod);
      if k - 1 == i {
        OwnTermIsRemainder(rs, ms, i);
        CongruentAdd(Total(rs, ms, prod, k - 1), 0, t, rs[i], ms[i]);
      } else {
        OtherTermVanishes(rs, ms, i, k - 1);
        DividesZero(ms[i]);
        CongruentAdd(Total(rs, ms, prod, k - 1), if i < k - 1 then rs[i] else 0, t, 0, ms[i]);
      }
    }
  }

  /** For pairwise coprime positive moduli and as many remainders as moduli,
      the result solves every congruence and lies in `[0, prod)`. */
  lemma CrtSolvesSystem(rs: seq<int>, ms: seq<int>)
    requires |rs| == |ms| > 0 && AllPositive(ms) && PairwiseCoprime(ms)
    ensures Crt(rs, ms).Solved?
    ensures 0 <= Crt(rs, ms).x < Product(ms)
    ensures forall i :: 0 <= i < |ms| ==> Crt(rs, ms).x % ms[i] == rs[i] % ms[i]
  {
    ProductPositive(ms);
    forall i | 0 <= i < |ms|
      ensures Crt(rs, ms).x % ms[i] == rs[i] % ms[i]
    {
      SolvesOne(rs, ms, i);
    }
  }

  lemma SolvesOne(rs: seq<int>, ms: seq<int>, i: nat)
    requires |rs| == |ms| && i < |ms| && AllPositive(ms) && PairwiseCoprime(ms)
    ensures Product(ms) > 0 && Crt(rs, ms).Solved?
    ensures Crt(rs, ms).x % ms[i] == rs[i] % ms[i]
  {
    var prod := Product(ms);
    ProductPositive(ms);
    var total := Total(rs, ms, prod, |ms|);
    var x := FloorMod(total, prod);
    assert Crt(rs, ms) == Solved(x);
    TotalModulo(rs, ms, i, |ms|);
    ElementDividesProduct(ms, i);
    // x differs from the total by a multiple of prod, hence of m_i.
    assert x - total == prod * -FloorDiv(total, prod);
    DividesMultiple(prod, -FloorDiv(total, prod));
    CongruentDivisor(x, total, prod, ms[i]);
    CongruentTrans(x, total, rs[i], ms[i]);
    CongruentIffMod(x, rs[i], ms[i]);
  }

  /** Pairwise coprime moduli that all divide `z` divide it together. */
  lemma {:induction false} ProductDivides(ms: seq<int>, z: int)
    requires AllPositive(ms) && PairwiseCoprime(ms)
    requires forall i :: 0 <= i < |ms| ==> Divides(ms[i], z)
    ensures Divides(Product(ms), z)
  {
    if |ms| == 0 {
      OneDividesAll(z);
    } else {
      var rest := ms[1..];
      assert forall k :: 0 <= k < |rest| ==> rest[k] == ms[k + 1];
      ProductDivides(rest, z);
      forall k | 0 <= k < |rest|
        ensures Gcd(rest[k], ms[0]) == 1
      {
        assert rest[k] == ms[k + 1];
      }
      CoprimeProduct(rest, ms[0]);
      GcdComm(Product(rest), ms[0]);
      CoprimeDivisorsMul(ms[0], Product(rest), z);
    }
  }

  /** The solution is unique in `[0, prod)`: any `y` there that satisfies
      every congruence is the value `Crt` returns. */
  lemma CrtUnique(rs: seq<int>, ms: seq<int>, y: int)
    requires |rs| == |ms| > 0 && AllPositive(ms) && PairwiseCoprime(ms)
    requires 0 <= y < Product(ms)
    requires forall i :: 0 <= i < |ms| ==> y % ms[i] == rs[i] % ms[i]
    ensures Crt(rs, ms) == Solved(y)
  {
    CrtSolvesSystem(rs, ms);
    var x := Crt(rs, ms).x;
    forall i | 0 <= i < |ms|
      ensures Divides(ms[i], x - y)
    {
      CongruentIffMod(x, y, ms[i]);
    }
    ProductDivides(ms, x - y);
    SmallMultipleIsZero(Product(ms), x - y);
  }

  /** The only multiple of `m` strictly between `-m` and `m` is 0. */
  lemma SmallMultipleIsZero(m: int, z: int)
    requires Divides(m, z) && -m < z < m
    ensures z == 0
  {
    if z > 0 {
      DivisorBound(m, z);
    } else if z < 0 {
      DividesMul(m, z, -1);
      DivisorBound(m, -z);
    }
  }

  /** A solved instance from its product and its running total. */
  lemma CrtFromTotal(rs: seq<int>, ms: seq<int>, prod: int, total: int)
    requires |ms| > 0 && |rs| == |ms| && Product(ms) == prod && prod > 0 && NonZero(ms)
    requires Total(rs, ms, prod, |ms|) == total
    ensures Crt(rs, ms) == Solved(total % prod)
  {
    assert Pairs(rs, ms) == |ms|;
    FloorAgreesForPositiveDivisor(total, prod);
  }

  /** Three positive, pairwise coprime moduli. */
  lemma Coprime3(a: int, b: int, c: int)
    requires a > 0 && b > 0 && c > 0
    requires Gcd(a, b) == 1 && Gcd(a, c) == 1 && Gcd(b, c) == 1
    ensures AllPositive([a, b, c]) && PairwiseCoprime([a, b, c])
  {
    GcdComm(a, b);
    GcdComm(a, c);
    GcdComm(b, c);
  }

  /** Four positive, pairwise coprime moduli. */
  lemma Coprime4(a: int, b: int, c: int, d: int)
    requires a > 0 && b > 0 && c > 0 && d > 0
    requires Gcd(a, b) == 1 && Gcd(a, c) == 1 && Gcd(a, d) == 1
    requires Gcd(b, c) == 1 && Gcd(b, d) == 1 && Gcd(c, d) == 1
    ensures AllPositive([a, b, c, d]) && PairwiseCoprime([a, b, c, d])
  {
    GcdComm(a, b);
    GcdComm(a, c);
    GcdComm(a, d);
    GcdComm(b, c);
    GcdComm(b, d);
    GcdComm(c, d);
  }

  /** The unit test at main.py, line 63: the answer is the unique solution below 105. */
  lemma CrtExampleLine63()
    ensures Crt([2, 3, 2], [3, 5, 7]) == Solved(23)
  {
    Coprime3(3, 5, 7);
    assert Product([3, 5, 7]) == 105;
    CrtUnique([2, 3, 2], [3, 5, 7], 23);
  }

  /** The unit test at main.py, line 64: the answer is the unique solution below 30. */
  lemma CrtExampleLine64()
    ensures Crt([1, 2, 3], [2, 3, 5]) == Solved(23)
  {
    Coprime3(2, 3, 5);
    assert Product([2, 3, 5]) == 30;
    CrtUnique([1, 2, 3], [2, 3, 5], 23);
  }

  /** The unit test at main.py, line 65: the answer is the unique solution below 60. */
  lemma CrtExampleLine65()
    ensures Crt([0, 3, 4], [3, 4, 5]) == Solved(39)
  {
    Coprime3(3, 4, 5);
    assert Product([3, 4, 5]) == 60;
    CrtUnique([0, 3, 4], [3, 4, 5], 39);
  }

  /** The unit test at main.py, line 66: the answer is the unique solution below 60. */
  lemma CrtExampleLine66()
    ensures Crt([2, 3, 1], [3, 4, 5]) == Solved(11)
  {
    Coprime3(3, 4, 5);
    assert Product([3, 4, 5]) == 60;
    CrtUnique([2, 3, 1], [3, 4, 5], 11);
  }

  /** The unit test at main.py, line 67: the answer is the unique solution below 105. */
  lemma CrtExampleLine67()
    ensures Crt([0, 0, 0], [3, 5, 7]) == Solved(0)
  {
    Coprime3(3, 5, 7);
    assert Product([3, 5, 7]) == 105;
    CrtUnique([0, 0, 0], [3, 5, 7], 0);
  }

  /** The unit test at main.py, line 68: the answer is the unique solution below 30. */
  lemma CrtExampleLine68()
    ensures Crt([1, 1, 1], [2, 3, 5]) == Solved(1)
  {
    Coprime3(2, 3, 5);
    assert Product([2, 3, 5]) == 30;
    CrtUnique([1, 1, 1], [2, 3, 5], 1);
  }

  /** The unit test at main.py, line 69: the answer is the unique solution below 1001. */
  lemma CrtExampleLine69()
    ensures Crt([3, 4, 5], [7, 11, 13]) == Solved(213)
  {
    Coprime3(7, 11, 13);
    assert Product([7, 11, 13]) == 1001;
    CrtUnique([3, 4, 5], [7, 11, 13], 213);
  }

  /** The unit test at main.py, line 70: the answer is the unique solution below 3465. */
  lemma CrtExampleLine70()
    ensures Crt([1, 2, 3, 4], [5, 7, 9, 11]) == Solved(1731)
  {
    Coprime4(5, 7, 9, 11);
    assert Product([5, 7, 9, 11]) == 3465;
    CrtUnique([1, 2, 3, 4], [5, 7, 9, 11], 1731);
  }

  /** The unit test at main.py, line 72: the answer is the unique solution below 792. */
  lemma CrtExampleLine72()
    ensures Crt([5, 6, 7], [8, 9, 11]) == Solved(645)
  {
    Coprime3(8, 9, 11);
    assert Product([8, 9, 11]) == 792;
    CrtUnique([5, 6, 7], [8, 9, 11], 645);
  }

  /** A solved three-modulus instance from its product and its three terms. */
  lemma CrtFromTerms(r0: int, r1: int, r2: int, m0: int, m1: int, m2: int, prod: int, t0: int, t1: int, t2: int)
    requires m0 != 0 && m1 != 0 && m2 != 0 && Product([m0, m1, m2]) == prod && prod > 0
    requires Term(r0, m0, prod) == t0 && Term(r1, m1, prod) == t1 && Term(r2, m2, prod) == t2
    ensures Crt([r0, r1, r2], [m0, m1, m2]) == Solved((t0 + t1 + t2) % prod)
  {
    var rs, ms := [r0, r1, r2], [m0, m1, m2];
    assert NonZero(ms);
    assert Total(rs, ms, prod, 1) == t0;
    assert Total(rs, ms, prod, 2) == t0 + t1;
    assert Total(rs, ms, prod, 3) == t0 + t1 + t2;
    CrtFromTotal(rs, ms, prod, t0 + t1 + t2);
  }

  /** `Term` from the inverse: for a positive modulus dividing `prod`,
      the term is `r * inv * (prod / m)`. */
  lemma TermValue(r: int, m: int, prod: int, p: int, inv: int)
    requires m > 0 && prod == m * p && MulInv(p, m) == inv
    ensures Term(r, m, prod) == r * inv * p
  {
    FloorAgreesForPositiveDivisor(prod, m);
    ModUnique(prod, m, p, 0);
  }

  /** The inverses line 71 asks for: 24 is invertible modulo 5, but 30 and
      20 share a factor with 4 and 6, and `mul_inv` answers 1, which is no
      inverse there. */
  lemma Line71Inverses()
    ensures MulInv(30, 4) == 1 && MulInv(24, 5) == 4 && MulInv(20, 6) == 1
    ensures (24 * 4) % 5 == 1 && (30 * 1) % 4 != 1 && (20 * 1) % 6 != 1
  {
  }

  /** The unit test at main.py, line 71, whose moduli 4 and 6 share the factor 2. */
  lemma CrtExampleLine71()
    ensures Crt([3, 2, 1], [4, 5, 6]) == Solved(62)
  {
    Line71Inverses();
    TermValue(3, 4, 120, 30, 1);
    TermValue(2, 5, 120, 24, 4);
    TermValue(1, 6, 120, 20, 1);
    assert Product([4, 5, 6]) == 120;
    CrtFromTerms(3, 2, 1, 4, 5, 6, 120, 90, 192, 20);
  }

  /** Without coprime moduli the congruences can fail: the answer 62 for
      `([3, 2, 1], [4, 5, 6])` is 2 modulo 4, not 3. */
  lemma CrtNeedsCoprimeModuli()
    ensures !PairwiseCoprime([4, 5, 6])
    ensures Crt([3, 2, 1], [4, 5, 6]).x % 4 != 3 % 4
  {
    CrtExampleLine71();
    assert Gcd(4, 6) == 2;
  }

  /** The loops of the Python function: `reduce` folds the product from the
      left, the loop adds one term per zipped pair, and a zero modulus fails
      where Python raises `ZeroDivisionError` -- at `prod // modulus` when the
      loop reaches it, otherwise at the final `% prod`. */
  method ChineseRemainder(rs: seq<int>, ms: seq<int>) returns (res: CrtResult)
    ensures res == Crt(rs, ms)
  {
    if |ms| == 0 {
      return Failed(EmptyModuli);
    }
    var prod := ms[0];
    var i := 1;
    while i < |ms|
      invariant 1 <= i <= |ms|
      invariant prod == Product(ms[..i])
    {
      ProductAppend(ms[..i], ms[i]);
      assert ms[..i + 1] == ms[..i] + [ms[i]];
      prod := prod * ms[i];
      i := i + 1;
    }
    assert ms[..|ms|] == ms;
    ProductZero(ms);
    var total := 0;
    var k := 0;
    var n := Pairs(rs, ms);
    while k < n
      invariant k <= n
      invariant NonZero(ms) ==> total == Total(rs, ms, prod, k)
    {
      if ms[k] == 0 {
        return Failed(ZeroModulus);
      }
      var p := FloorDiv(prod, ms[k]);
      total := total + rs[k] * MulInv(p, ms[k]) * p;
      k := k + 1;
    }
    if prod == 0 {
      return Failed(ZeroModulus);
    }
    res := Solved(FloorMod(total, prod));
  }

  /** Folding from the left agrees with the recursive product. */
  lemma {:induction false} ProductAppend(s: seq<int>, v: int)
    ensures Product(s + [v]) == Product(s) * v
  {
    if |s| > 0 {
      assert (s + [v])[1..] == s[1..] + [v];
      ProductAppend(s[1..], v);
    }
  }
}
