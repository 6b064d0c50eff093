# Chinese remainder and Miller–Rabin, modelled in Dafny

The repository is one Python file, `main.py`, with three number-theory routines:

- `mul_inv(a, b)`: the modular multiplicative inverse, computed by the extended Euclidean algorithm.
- `chinese_remainder_theorem(remainders, moduli)`: combines a system of congruences with the standard formula Σ rᵢ · inv(M/mᵢ, mᵢ) · (M/mᵢ) mod M.
- `miller_rabin(n, s)`: the Miller–Rabin probabilistic primality test with `s` rounds.

It also holds the unit tests for these routines.

This project models each routine twice:

- as a pure function over unbounded integers;
- as a method with the Python loops, proved to compute the function. It fails on exactly the inputs where the Python raises; the CRT method checks for a zero modulus just before the division that would raise.

It then proves what the routines promise:

- `mul_inv` returns the inverse in `[0, b)` for coprime arguments;
- the CRT result solves every congruence and is the unique solution in `[0, ∏mᵢ)`;
- `miller_rabin` never rejects a prime, which needs Fermat's little theorem, proved here from the binomial theorem;
- a round passes exactly when `n` is a strong probable prime to its base;
- the answer of every unit test, for every draw of bases the test could make. The five primes are always accepted. 9, 15 and 21 are rejected by every draw of at least one base. 25 and 49 are accepted exactly when every drawn base is a strong liar: 7 or 18 for 25, and 18, 19, 30 or 31 for 49. So the assertions at lines 84 and 85 hold for most draws, but not for all.

Modules:

| module | file | contents |
|---|---|---|
| `Modular` | modular.dfy | divisibility, congruence, facts about `/` and `%` |
| `Euclid` | euclid.dfy | `Gcd`, Bézout's identity, coprimality, primes, trial division |
| `FloorDivision` | floor_division.dfy | Python's `//` and `%`, which round toward negative infinity |
| `ModularInverse` | modular_inverse.dfy | `mul_inv` |
| `ChineseRemainder` | chinese_remainder.dfy | `chinese_remainder_theorem` |
| `Powers` | powers.dfy | `Pow`, and `ModPow` for Python's `pow(a, e, n)` |
| `Fermat` | fermat.dfy | binomial coefficients, the binomial theorem, Fermat's little theorem |
| `MillerRabin` | miller_rabin.dfy | `miller_rabin` and the strong-probable-prime reference |
| `MillerRabinExamples` | miller_rabin_examples.dfy | the unit tests of `miller_rabin`, and the strong liars of 9, 15, 21, 25 and 49 |

Decisions that shape the model:

- **Random bases.** The `s` bases that `random.randint(2, n - 2)` would draw are a parameter, the sequence `witnesses`. The number of rounds `s` is its length, so a non-positive `s` is the empty sequence. Lemmas about the unit tests quantify over every draw the Python could make (`InDrawRange`).
- **Errors in the CRT.** The Python raises in two places, and the model returns them as values of `CrtResult`:
  - an empty list of moduli: `reduce` without an initial value raises, giving `EmptyModuli`;
  - any zero modulus: this gives `ZeroModulus`. If `zip` reaches the zero modulus, `prod // 0` raises there. If it does not, the final `total % prod` raises, because `prod` is then 0.

  Remainders and moduli of different lengths are not rejected: `zip` silently uses the shorter length (`Pairs`). Negative moduli follow Python's floor division (`FloorDiv`, `FloorMod`).
- **Input the code does not reject.** The model follows the code on every input. The code computes a value for moduli that are not coprime; line 71's test pins 62, which is not a solution. It raises exceptions for empty moduli and for a zero modulus. The correctness lemmas require positive, pairwise coprime moduli, as many as the remainders. The function itself accepts every input.
- **`mul_inv` on all integers.** `mul_inv` is modelled with no precondition. For `a <= 1` or `b <= 0` the loop never runs and the answer is 1. The modulus 1 also answers 1 by the code's convention; the mathematically canonical answer would be 0.

## Model

| member | source | states |
|---|---|---|
| FloorDivision.FloorDiv | main.py:11 | Python's `prod // m`: the quotient rounds toward negative infinity, so `m*q <= x < m*q + m` for a positive divisor and the mirror image for a negative one |
| FloorDivision.FloorMod | main.py:14 | Python's `total % prod`: the remainder has the divisor's sign, lies strictly inside `(−|d|, |d|)` on that side of zero, and `x == d * (x // d) + r` |
| FloorDivision.FloorAgreesForPositiveDivisor | main.py:14 | for a positive divisor Python's `//` and `%` coincide with the Euclidean operators |
| ModularInverse.MulInv | main.py:17-20 | whenever the loop cannot start (`a <= 1` or `b <= 0`), or the modulus is 1, the answer is 1 |
| ModularInverse.EuclidLoop | main.py:21-24 | the while-loop as a tail-recursive function: it steps while `a > 1 and b > 0` and returns the final `x1`; what it returns is stated by `EuclidLoopSound` |
| ModularInverse.EuclidInit | main.py:18 | the starting state `(a, b, 0, 1)` satisfies the loop invariant: same gcd, Bézout congruences `x1·a0 ≡ a` and `x0·a0 ≡ b (mod b0)`, opposite signs, `|x0|·a + |x1|·b == b0` |
| ModularInverse.EuclidStep | main.py:21-24 | one iteration `(a, b, x0, x1) := (b, a % b, x1 − q·x0, x0)` preserves that invariant |
| ModularInverse.EuclidExit | main.py:21 | when the loop stops on a coprime pair it stops at `a == 1`, with `x1·a0 ≡ 1 (mod b0)` and `−b0 < x1 < b0` |
| ModularInverse.EuclidLoopSound | main.py:21-24 | from any invariant state of a coprime pair the loop terminates with a coefficient that is an inverse of `a0` strictly between `−b0` and `b0` |
| ModularInverse.Normalize | main.py:25-26 | adding `b0` to a negative coefficient yields the canonical inverse in `[0, b0)` |
| ModularInverse.MulInvIsInverse | main.py:17-27 | for `a >= 1`, `b > 1` and `gcd(a, b) == 1` the result `x` lies in `[0, b)` and `a·x mod b == 1` |
| ModularInverse.MulInvWithoutInverse | main.py:21-27 | without coprimality nothing is promised: `mul_inv(30, 4)` is 1, which is no inverse (`30 mod 4 == 2`, `gcd == 2`) |
| ModularInverse.MulInvLoop | main.py:17-27 | the while-loop with invariant and `decreases b` computes `MulInv`, and its result is the inverse in `[0, b)` for coprime input |
| ChineseRemainder.Product | main.py:8 | the product of the moduli; `ProductAppend` shows it equals the left fold of `reduce`, and `ProductZero` says when it is zero |
| ChineseRemainder.Pairs | main.py:10 | the number of pairs `zip` forms, the shorter of the two lengths |
| ChineseRemainder.Term | main.py:11-12 | one pair's contribution `r · mul_inv(p, m) · p`, with `p = prod // m`; `OtherTermVanishes` and `OwnTermIsRemainder` state its residues |
| ChineseRemainder.Total | main.py:10-12 | the running total after `k` pairs; `TotalModulo` states its residue modulo each modulus |
| ChineseRemainder.ProductZero | main.py:8 | the product of the moduli is zero exactly when some modulus is zero |
| ChineseRemainder.ProductAppend | main.py:8 | `reduce` folding from the left agrees with the recursive product |
| ChineseRemainder.Crt | main.py:6-14 | an empty modulus list is an error; otherwise it is an error exactly when a modulus is zero; a solved result lies in `[0, prod)` for a positive product and in `(prod, 0]` for a negative one |
| ChineseRemainder.OtherTermVanishes | main.py:11-12 | modulo `mᵢ`, the term of every other pair is 0, since `mᵢ` divides that pair's partial product |
| ChineseRemainder.OwnTermIsRemainder | main.py:11-12 | for coprime moduli, pair `i`'s own term is congruent to `rᵢ` modulo `mᵢ`, because `mul_inv` inverts the partial product |
| ChineseRemainder.TotalModulo | main.py:10-12 | modulo `mᵢ`, the running total is congruent to `rᵢ` once pair `i` has been added and to 0 before |
| ChineseRemainder.CrtSolvesSystem | main.py:6-14 | for equal-length input with positive, pairwise coprime moduli, the result exists, lies in `[0, ∏mᵢ)` and satisfies `x mod mᵢ == rᵢ mod mᵢ` for every `i` |
| ChineseRemainder.ProductDivides | main.py:8 | pairwise coprime moduli that each divide `z` divide it together, which is why the product is the right modulus |
| ChineseRemainder.CrtUnique | main.py:6-14 | any `y` in `[0, ∏mᵢ)` that satisfies every congruence is the value returned: the solution is unique |
| ChineseRemainder.ChineseRemainder | main.py:6-14 | the Python loops (left fold for the product, one term per zipped pair, final `%`) compute `Crt`, including both error cases |
| ChineseRemainder.CrtExampleLine63 | main.py:63 | `([2,3,2], [3,5,7])` gives 23 |
| ChineseRemainder.CrtExampleLine64 | main.py:64 | `([1,2,3], [2,3,5])` gives 23 |
| ChineseRemainder.CrtExampleLine65 | main.py:65 | `([0,3,4], [3,4,5])` gives 39 |
| ChineseRemainder.CrtExampleLine66 | main.py:66 | `([2,3,1], [3,4,5])` gives 11 |
| ChineseRemainder.CrtExampleLine67 | main.py:67 | `([0,0,0], [3,5,7])` gives 0 |
| ChineseRemainder.CrtExampleLine68 | main.py:68 | `([1,1,1], [2,3,5])` gives 1 |
| ChineseRemainder.CrtExampleLine69 | main.py:69 | `([3,4,5], [7,11,13])` gives 213 |
| ChineseRemainder.CrtExampleLine70 | main.py:70 | `([1,2,3,4], [5,7,9,11])` gives 1731 |
| ChineseRemainder.Line71Inverses | main.py:71 | the three inverses line 71 asks for: `mul_inv(24, 5) == 4` is an inverse, while `mul_inv(30, 4)` and `mul_inv(20, 6)` are 1 and are not |
| ChineseRemainder.CrtExampleLine71 | main.py:71 | `([3,2,1], [4,5,6])` gives 62, although 4 and 6 share a factor |
| ChineseRemainder.CrtNeedsCoprimeModuli | main.py:71 | the moduli of line 71 are not pairwise coprime, and its answer 62 violates the first congruence, so coprimality is necessary for `CrtSolvesSystem` |
| ChineseRemainder.CrtExampleLine72 | main.py:72 | `([5,6,7], [8,9,11])` gives 645 |
| Powers.PowMod | main.py:47 | a base may be replaced by its remainder before raising to a power modulo `n` |
| Powers.ModPow | main.py:47 | Python's `pow(a, e, n)` for positive `n` lies in `[0, n)` and equals `aᵉ mod n` |
| MillerRabin.Halvings | main.py:39-42 | halving `n − 1` while it is even yields `(r, d)` with `d` odd and `2ʳ·d == n − 1` |
| MillerRabin.DecompositionUnique | main.py:38-42 | every `2ʳ·d == m` with `d` odd is the decomposition the loop finds |
| MillerRabin.Decompose | main.py:39-42 | the halving loop computes `Halvings(n − 1)` |
| MillerRabin.OddHasHalvings | main.py:39-42 | for odd `n >= 3` the loop halves at least once (`r >= 1`) |
| MillerRabin.SquaringReaches | main.py:51-56 | the inner `for`/`break`/`else` loop: at most `k` squarings, succeeding when `n − 1` appears; `SquaringReachesChain` states which chain elements it inspects |
| MillerRabin.RoundPasses | main.py:46-56 | one round: `a^d mod n` is 1 or `n − 1`, or the squaring loop succeeds; `RoundPassesIffStrongProbablePrime` relates it to strong probable primes |
| MillerRabin.MillerRabin | main.py:30-57 | "probably prime" only for 2 or for odd `n >= 3`; 2 and 3 are always accepted, whatever the bases |
| MillerRabin.SquaringReachesChain | main.py:51-54 | the inner squaring loop started at chain element `j` meets `n − 1` within `k` squarings exactly when some `a^(2ⁱ·d) mod n` with `j < i <= j + k` is `n − 1` |
| MillerRabin.RoundPassesIffStrongProbablePrime | main.py:46-56 | for odd `n >= 3` a round with base `a` passes exactly when `n` is a strong probable prime to base `a`: `a^d ≡ 1` or `a^(2ⁱ·d) ≡ −1 (mod n)` for some `0 <= i < r` |
| MillerRabin.MillerRabinCharacterization | main.py:44-57 | for odd `n >= 5` the test answers "probably prime" exactly when `n` is a strong probable prime to every base |
| MillerRabin.SqrtOfOne | main.py:48-56 | modulo a prime the only square roots of 1 are 1 and `p − 1`, which is why a round that never meets `n − 1` proves compositeness |
| MillerRabin.ChainAvoidsOne | main.py:51-56 | modulo a prime, a round that fails never reaches 1 anywhere along the squaring chain |
| MillerRabin.PrimeRoundPasses | main.py:46-56 | for an odd prime every base it does not divide passes the round; the proof uses Fermat's little theorem |
| MillerRabin.PrimeNeverRejected | main.py:30-57 | a prime is never reported composite, for any number of rounds and any bases that it does not divide |
| MillerRabin.NoRoundsTrustsOddNumbers | main.py:45-57 | with zero rounds the answer is "probably prime" exactly for 2, 3 and odd `n >= 5` |
| MillerRabin.RoundsCompose | main.py:45-57 | running two batches of bases answers "probably prime" exactly when each batch does; the rounds are independent |
| MillerRabin.MillerRabinTest | main.py:30-57 | the Python loops (fast paths, halving loop, `continue` and for/`break`/`else` rounds) compute `MillerRabin` |
| MillerRabin.SquaringReachesValues | main.py:51-54 | the squaring loop with `pow(x, 2, n)` agrees with the same loop written as `x·x mod n` |
| MillerRabin.RoundPassesValues | main.py:47-56 | a round decided with `pow` agrees with one decided from the values `a^d mod n` and its squarings |
| MillerRabin.PrimeAccepted | main.py:46 | a prime confirmed by trial division up to √n passes every draw of bases from `[2, n − 2]` |
| MillerRabin.FailingBaseRejects | main.py:55-56 | one base whose round fails among the draws makes the answer "composite" |
| MillerRabin.PassingBasesAccepted | main.py:45-57 | when every drawn base's round passes, the answer is "probably prime" |
| MillerRabin.RoundPassesMirror | main.py:46-56 | for odd `d`, the round with base `a` passes exactly when the round with base `n − a` does, because `(n − a)^d ≡ −(a^d) (mod n)` |
| MillerRabin.DrawDecides | main.py:45-57 | once the passing bases in `[2, n − 2]` are known to be exactly `liars`, a draw is accepted exactly when all its bases are in `liars` |
| MillerRabinExamples.MillerRabinExampleLine76 | main.py:76 | 7 is accepted for every draw of bases in `[2, 5]` |
| MillerRabinExamples.MillerRabinExampleLine77 | main.py:77 | 13 is accepted for every draw of bases in `[2, 11]` |
| MillerRabinExamples.MillerRabinExampleLine78 | main.py:78 | 17 is accepted for every draw of bases in `[2, 15]` |
| MillerRabinExamples.MillerRabinExampleLine79 | main.py:79 | 31 is accepted for every draw of bases in `[2, 29]` |
| MillerRabinExamples.MillerRabinExampleLine80 | main.py:80 | 97 is accepted for every draw of bases in `[2, 95]` |
| MillerRabinExamples.BasesFor9 | main.py:46-56 | no base in `[2, 7]` passes a round for 9 |
| MillerRabinExamples.MillerRabinExampleLine81 | main.py:81 | for every draw from `[2, 7]`, 9 is accepted exactly when the draw is empty; the test's five rounds answer `False` |
| MillerRabinExamples.BasesFor15 | main.py:46-56 | no base in `[2, 13]` passes a round for 15 |
| MillerRabinExamples.MillerRabinExampleLine82 | main.py:82 | for every draw from `[2, 13]`, 15 is accepted exactly when the draw is empty |
| MillerRabinExamples.BasesFor21 | main.py:46-56 | no base in `[2, 19]` passes a round for 21 |
| MillerRabinExamples.MillerRabinExampleLine83 | main.py:83 | for every draw from `[2, 19]`, 21 is accepted exactly when the draw is empty |
| MillerRabinExamples.BasesFor25 | main.py:46-56 | the bases in `[2, 23]` that pass a round for 25 are exactly 7 and 18 |
| MillerRabinExamples.MillerRabinExampleLine84 | main.py:84 | for every draw from `[2, 23]`, 25 is accepted exactly when every drawn base is 7 or 18 |
| MillerRabinExamples.BasesFor49 | main.py:46-56 | the bases in `[2, 47]` that pass a round for 49 are exactly 18, 19, 30 and 31 |
| MillerRabinExamples.MillerRabinExampleLine85 | main.py:85 | for every draw from `[2, 47]`, 49 is accepted exactly when every drawn base is 18, 19, 30 or 31 |
| MillerRabinExamples.LiarDrawAccepted25 | main.py:84 | the assertion at line 84 depends on the draw: 25 is not prime, yet the draw `[7, 18, 7, 18, 7]` answers `True` |
| MillerRabinExamples.LiarDrawAccepted49 | main.py:85 | the assertion at line 85 depends on the draw: 49 is not prime, yet the draw `[18, 19, 30, 31, 18]` answers `True` |
| Fermat.FermatLittle | main.py:47-56 | `a^(p−1) mod p == 1` for a prime `p` not dividing `a`; this is the fact behind `PrimeRoundPasses` |

## Left out

- The random choice of bases (main.py:46) and the 4⁻ˢ bound on the error probability are not modelled. The bases are an explicit parameter, and a probability is not a deterministic contract.
- Python's built-in `pow` is re-specified as `ModPow`, by square-and-multiply. The CPython algorithm itself is not modelled, only the value it returns.
- The unittest harness and the `__main__` entry point (main.py:59-89) are left out. Its assertions appear only as lemmas.
- Exceptions are modelled as values. The Python exception types (`TypeError` from `reduce`, `ZeroDivisionError`) are represented by the two `CrtError` constructors.
- Decompose: requires `m > 0`. For `m == 0` the Python loop never ends, but `miller_rabin` only reaches it with `n − 1 >= 4`.
- Machine-width integers: the Python integers are unbounded, and so are Dafny's, so there is no overflow to model.
