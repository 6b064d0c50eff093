/** The unit tests of `miller_rabin` (main.py, lines 76-85). Each test calls
    `miller_rabin(n, 5)`, which draws five bases from `[2, n - 2]`; the lemmas
    state the answer for every draw. For the composites the bases whose round
    passes (the strong liars) are found base by base, from `a^d mod n` and its
    squarings, five bases to a lemma; bases above `n / 2` need no work of
    their own, as `RoundPassesMirror` pairs `a` with `n - a`. */
module MillerRabinExamples {
  import opened Modular
  import opened Euclid
  import opened Powers
  import opened Test = MillerRabin

  /** The unit test at main.py, line 76: 7 is prime, so every draw answers `True`. */
  lemma MillerRabinExampleLine76(witnesses: seq<int>)
    requires InDrawRange(7, witnesses)
    ensures MillerRabin(7, witnesses)
  {
    PrimeAccepted(7, 2, witnesses);
  }

  /** The unit test at main.py, line 77: 13 is prime, so every draw answers `True`. */
  lemma MillerRabinExampleLine77(witnesses: seq<int>)
    requires InDrawRange(13, witnesses)
    ensures MillerRabin(13, witnesses)
  {
    PrimeAccepted(13, 3, witnesses);
  }

  /** The unit test at main.py, line 78: 17 is prime, so every draw answers `True`. */
  lemma MillerRabinExampleLine78(witnesses: seq<int>)
    requires InDrawRange(17, witnesses)
    ensures MillerRabin(17, witnesses)
  {
    PrimeAccepted(17, 4, witnesses);
  }

  /** The unit test at main.py, line 79: 31 is prime, so every draw answers `True`. */
  lemma MillerRabinExampleLine79(witnesses: seq<int>)
    requires InDrawRange(31, witnesses)
    ensures MillerRabin(31, witnesses)
  {
    PrimeAccepted(31, 5, witnesses);
  }

  /** The unit test at main.py, line 80: 97 is prime, so every draw answers `True`. */
  lemma MillerRabinExampleLine80(witnesses: seq<int>)
    requires InDrawRange(97, witnesses)
    ensures MillerRabin(97, witnesses)
  {
    PrimeAccepted(97, 9, witnesses);
  }

  /** The bases 2 to 4 for 9, one at a time. */
  lemma BasesFor9From2(a: int)
    requires 2 <= a <= 4
    ensures !RoundPassesByValues(9, a, Decomposition(3, 1))
  {
    if a == 2 {
      assert Pow(2, 1) % 9 == 2 && (2 * 2) % 9 == 4 && (4 * 4) % 9 == 7;
      assert !RoundPassesByValues(9, 2, Decomposition(3, 1));
    } else if a == 3 {
      assert Pow(3, 1) % 9 == 3 && (3 * 3) % 9 == 0 && (0 * 0) % 9 == 0;
      assert !RoundPassesByValues(9, 3, Decomposition(3, 1));
    } else {
      assert Pow(4, 1) % 9 == 4 && (4 * 4) % 9 == 7 && (7 * 7) % 9 == 4;
      assert !RoundPassesByValues(9, 4, Decomposition(3, 1));
    }
  }

  /** The bases in `[2, 7]` whose round passes for 9: none. Bases
      above 4 mirror the ones below. */
  lemma BasesFor9(a: int)
    requires 2 <= a <= 7
    ensures !RoundPassesByValues(9, a, Decomposition(3, 1))
  {
    RoundPassesMirror(9, a, Decomposition(3, 1));
    var b := if a <= 4 then a else 9 - a;
    BasesFor9From2(b);
  }

  /** The unit test at main.py, line 81: 9 is composite, and
      every draw of at least one base answers `False`. */
  lemma MillerRabinExampleLine81(witnesses: seq<int>)
    requires InDrawRange(9, witnesses)
    ensures MillerRabin(9, witnesses) <==> |witnesses| == 0
  {
    assert Halvings(8) == Decomposition(3, 1);
    var none: set<int> := {};
    forall a | 2 <= a <= 7
      ensures RoundPassesByValues(9, a, Halvings(8)) <==> a in none
    {
      BasesFor9(a);
    }
    DrawDecides(9, none, witnesses);
    if |witnesses| > 0 {
      assert witnesses[0] !in none;
    }
  }

  /** The bases 2 to 4 for 15, one at a time. */
  lemma BasesFor15From2(a: int)
    requires 2 <= a <= 4
    ensures !RoundPassesByValues(15, a, Decomposition(1, 7))
  {
    if a == 2 {
      assert Pow(2, 7) % 15 == 8;
      assert !RoundPassesByValues(15, 2, Decomposition(1, 7));
    } else if a == 3 {
      assert Pow(3, 7) % 15 == 12;
      assert !RoundPassesByValues(15, 3, Decomposition(1, 7));
    } else {
      assert Pow(4, 7) % 15 == 4;
      assert !RoundPassesByValues(15, 4, Decomposition(1, 7));
    }
  }

  /** The bases 5 to 7 for 15, one at a time. */
  lemma BasesFor15From5(a: int)
    requires 5 <= a <= 7
    ensures !RoundPassesByValues(15, a, Decomposition(1, 7))
  {
    if a == 5 {
      assert Pow(5, 7) % 15 == 5;
      assert !RoundPassesByValues(15, 5, Decomposition(1, 7));
    } else if a == 6 {
      assert Pow(6, 7) % 15 == 6;
      assert !RoundPassesByValues(15, 6, Decomposition(1, 7));
    } else {
      assert Pow(7, 7) % 15 == 13;
      assert !RoundPassesByValues(15, 7, Decomposition(1, 7));
    }
  }

  /** The bases in `[2, 13]` whose round passes for 15: none. Bases
      above 7 mirror the ones below. */
  lemma BasesFor15(a: int)
    requires 2 <= a <= 13
    ensures !RoundPassesByValues(15, a, Decomposition(1, 7))
  {
    RoundPassesMirror(15, a, Decomposition(1, 7));
    var b := if a <= 7 then a else 15 - a;
    if b <= 4 {
      BasesFor15From2(b);
    } else {
      BasesFor15From5(b);
    }
  }

  /** The unit test at main.py, line 82: 15 is composite, and
      every draw of at least one base answers `False`. */
  lemma MillerRabinExampleLine82(witnesses: seq<int>)
    requires InDrawRange(15, witnesses)
    ensures MillerRabin(15, witnesses) <==> |witnesses| == 0
  {
    assert Halvings(14) == Decomposition(1, 7);
    var none: set<int> := {};
    forall a | 2 <= a <= 13
      ensures RoundPassesByValues(15, a, Halvings(14)) <==> a in none
    {
      BasesFor15(a);
    }
    DrawDecides(15, none, witnesses);
    if |witnesses| > 0 {
      assert witnesses[0] !in none;
    }
  }

  /** The bases 2 to 6 for 21, one at a time. */
  lemma BasesFor21From2(a: int)
    requires 2 <= a <= 6
    ensures !RoundPassesByValues(21, a, Decomposition(2, 5))
  {
    if a == 2 {
      assert Pow(2, 5) % 21 == 11 && (11 * 11) % 21 == 16;
      assert !RoundPassesByValues(21, 2, Decomposition(2, 5));
    } else if a == 3 {
      assert Pow(3, 5) % 21 == 12 && (12 * 12) % 21 == 18;
      assert !RoundPassesByValues(21, 3, Decomposition(2, 5));
    } else if a == 4 {
      assert Pow(4, 5) % 21 == 16 && (16 * 16) % 21 == 4;
      assert !RoundPassesByValues(21, 4, Decomposition(2, 5));
    } else if a == 5 {
      assert Pow(5, 5) % 21 == 17 && (17 * 17) % 21 == 16;
      assert !RoundPassesByValues(21, 5, Decomposition(2, 5));
    } else {
      assert Pow(6, 5) % 21 == 6 && (6 * 6) % 21 == 15;
      assert !RoundPassesByValues(21, 6, Decomposition(2, 5));
    }
  }

  /** The bases 7 to 10 for 21, one at a time. */
  lemma BasesFor21From7(a: int)
    requires 7 <= a <= 10
    ensures !RoundPassesByValues(21, a, Decomposition(2, 5))
  {
    if a == 7 {
      assert Pow(7, 5) % 21 == 7 && (7 * 7) % 21 == 7;
      assert !RoundPassesByValues(21, 7, Decomposition(2, 5));
    } else if a == 8 {
      assert Pow(8, 5) % 21 == 8 && (8 * 8) % 21 == 1;
      assert !RoundPassesByValues(21, 8, Decomposition(2, 5));
    } else if a == 9 {
      assert Pow(9, 5) % 21 == 18 && (18 * 18) % 21 == 9;
      assert !RoundPassesByValues(21, 9, Decomposition(2, 5));
    } else {
      assert Pow(10, 5) % 21 == 19 && (19 * 19) % 21 == 4;
      assert !RoundPassesByValues(21, 10, Decomposition(2, 5));
    }
  }

  /** The bases in `[2, 19]` whose round passes for 21: none. Bases
      above 10 mirror the ones below. */
  lemma BasesFor21(a: int)
    requires 2 <= a <= 19
    ensures !RoundPassesByValues(21, a, Decomposition(2, 5))
  {
    RoundPassesMirror(21, a, Decomposition(2, 5));
    var b := if a <= 10 then a else 21 - a;
    if b <= 6 {
      BasesFor21From2(b);
    } else {
      BasesFor21From7(b);
    }
  }

  /** The unit test at main.py, line 83: 21 is composite, and
      every draw of at least one base answers `False`. */
  lemma MillerRabinExampleLine83(witnesses: seq<int>)
    requires InDrawRange(21, witnesses)
    ensures MillerRabin(21, witnesses) <==> |witnesses| == 0
  {
    assert Halvings(20) == Decomposition(2, 5);
    var none: set<int> := {};
    forall a | 2 <= a <= 19
      ensures RoundPassesByValues(21, a, Halvings(20)) <==> a in none
    {
      BasesFor21(a);
    }
    DrawDecides(21, none, witnesses);
    if |witnesses| > 0 {
      assert witnesses[0] !in none;
    }
  }

  /** The bases 2 to 5 for 25, one at a time. */
  lemma BasesFor25From2(a: int)
    requires 2 <= a <= 5
    ensures RoundPassesByValues(25, a, Decomposition(3, 3)) <==> a in {7, 18}
  {
    if a == 2 {
      assert Pow(2, 3) % 25 == 8 && (8 * 8) % 25 == 14 && (14 * 14) % 25 == 21;
      assert !RoundPassesByValues(25, 2, Decomposition(3, 3));
    } else if a == 3 {
      assert Pow(3, 3) % 25 == 2 && (2 * 2) % 25 == 4 && (4 * 4) % 25 == 16;
      assert !RoundPassesByValues(25, 3, Decomposition(3, 3));
    } else if a == 4 {
      assert Pow(4, 3) % 25 == 14 && (14 * 14) % 25 == 21 && (21 * 21) % 25 == 16;
      assert !RoundPassesByValues(25, 4, Decomposition(3, 3));
    } else {
      assert Pow(5, 3) % 25 == 0 && (0 * 0) % 25 == 0 && (0 * 0) % 25 == 0;
      assert !RoundPassesByValues(25, 5, Decomposition(3, 3));
    }
  }

  /** The bases 6 to 9 for 25, one at a time. */
  lemma BasesFor25From6(a: int)
    requires 6 <= a <= 9
    ensures RoundPassesByValues(25, a, Decomposition(3, 3)) <==> a in {7, 18}
  {
    if a == 6 {
      assert Pow(6, 3) % 25 == 16 && (16 * 16) % 25 == 6 && (6 * 6) % 25 == 11;
      assert !RoundPassesByValues(25, 6, Decomposition(3, 3));
    } else if a == 7 {
      assert Pow(7, 3) % 25 == 18 && (18 * 18) % 25 == 24;
      assert RoundPassesByValues(25, 7, Decomposition(3, 3));
    } else if a == 8 {
      assert Pow(8, 3) % 25 == 12 && (12 * 12) % 25 == 19 && (19 * 19) % 25 == 11;
      assert !RoundPassesByValues(25, 8, Decomposition(3, 3));
    } else {
      assert Pow(9, 3) % 25 == 4 && (4 * 4) % 25 == 16 && (16 * 16) % 25 == 6;
      assert !RoundPassesByValues(25, 9, Decomposition(3, 3));
    }
  }

  /** The bases 10 to 12 for 25, one at a time. */
  lemma BasesFor25From10(a: int)
    requires 10 <= a <= 12
    ensures RoundPassesByValues(25, a, Decomposition(3, 3)) <==> a in {7, 18}
  {
    if a == 10 {
      assert Pow(10, 3) % 25 == 0 && (0 * 0) % 25 == 0 && (0 * 0) % 25 == 0;
      assert !RoundPassesByValues(25, 10, Decomposition(3, 3));
    } else if a == 11 {
      assert Pow(11, 3) % 25 == 6 && (6 * 6) % 25 == 11 && (11 * 11) % 25 == 21;
      assert !RoundPassesByValues(25, 11, Decomposition(3, 3));
    } else {
      assert Pow(12, 3) % 25 == 3 && (3 * 3) % 25 == 9 && (9 * 9) % 25 == 6;
      assert !RoundPassesByValues(25, 12, Decomposition(3, 3));
    }
  }

  /** The bases in `[2, 23]` whose round passes for 25: 7 and 18. Bases
      above 12 mirror the ones below. */
  lemma BasesFor25(a: int)
    requires 2 <= a <= 23
    ensures RoundPassesByValues(25, a, Decomposition(3, 3)) <==> a in {7, 18}
  {
    RoundPassesMirror(25, a, Decomposition(3, 3));
    var b := if a <= 12 then a else 25 - a;
    if b <= 5 {
      BasesFor25From2(b);
    } else if b <= 9 {
      BasesFor25From6(b);
    } else {
      BasesFor25From10(b);
    }
  }

  /** The unit test at main.py, line 84: 25 is composite, and
      a draw answers `True` exactly when all its bases are among 7 and 18. */
  lemma MillerRabinExampleLine84(witnesses: seq<int>)
    requires InDrawRange(25, witnesses)
    ensures MillerRabin(25, witnesses) <==> forall i :: 0 <= i < |witnesses| ==> witnesses[i] in {7, 18}
  {
    assert Halvings(24) == Decomposition(3, 3);
    forall a | 2 <= a <= 23
      ensures RoundPassesByValues(25, a, Halvings(24)) <==> a in {7, 18}
    {
      BasesFor25(a);
    }
    DrawDecides(25, {7, 18}, witnesses);
  }

  /** The bases 2 to 6 for 49, one at a time. */
  lemma BasesFor49From2(a: int)
    requires 2 <= a <= 6
    ensures RoundPassesByValues(49, a, Decomposition(4, 3)) <==> a in {18, 19, 30, 31}
  {
    if a == 2 {
      assert Pow(2, 3) % 49 == 8 && (8 * 8) % 49 == 15 && (15 * 15) % 49 == 29 && (29 * 29) % 49 == 8;
      assert !RoundPassesByValues(49, 2, Decomposition(4, 3));
    } else if a == 3 {
      assert Pow(3, 3) % 49 == 27 && (27 * 27) % 49 == 43 && (43 * 43) % 49 == 36 && (36 * 36) % 49 == 22;
      assert !RoundPassesByValues(49, 3, Decomposition(4, 3));
    } else if a == 4 {
      assert Pow(4, 3) % 49 == 15 && (15 * 15) % 49 == 29 && (29 * 29) % 49 == 8 && (8 * 8) % 49 == 15;
      assert !RoundPassesByValues(49, 4, Decomposition(4, 3));
    } else if a == 5 {
      assert Pow(5, 3) % 49 == 27 && (27 * 27) % 49 == 43 && (43 * 43) % 49 == 36 && (36 * 36) % 49 == 22;
      assert !RoundPassesByValues(49, 5, Decomposition(4, 3));
    } else {
      assert Pow(6, 3) % 49 == 20 && (20 * 20) % 49 == 8 && (8 * 8) % 49 == 15 && (15 * 15) % 49 == 29;
      assert !RoundPassesByValues(49, 6, Decomposition(4, 3));
    }
  }

  /** The bases 7 to 11 for 49, one at a time. */
  lemma BasesFor49From7(a: int)
    requires 7 <= a <= 11
    ensures RoundPassesByValues(49, a, Decomposition(4, 3)) <==> a in {18, 19, 30, 31}
  {
    if a == 7 {
      assert Pow(7, 3) % 49 == 0 && (0 * 0) % 49 == 0 && (0 * 0) % 49 == 0 && (0 * 0) % 49 == 0;
      assert !RoundPassesByValues(49, 7, Decomposition(4, 3));
    } else if a == 8 {
      assert Pow(8, 3) % 49 == 22 && (22 * 22) % 49 == 43 && (43 * 43) % 49 == 36 && (36 * 36) % 49 == 22;
      assert !RoundPassesByValues(49, 8, Decomposition(4, 3));
    } else if a == 9 {
      assert Pow(9, 3) % 49 == 43 && (43 * 43) % 49 == 36 && (36 * 36) % 49 == 22 && (22 * 22) % 49 == 43;
      assert !RoundPassesByValues(49, 9, Decomposition(4, 3));
    } else if a == 10 {
      assert Pow(10, 3) % 49 == 20 && (20 * 20) % 49 == 8 && (8 * 8) % 49 == 15 && (15 * 15) % 49 == 29;
      assert !RoundPassesByValues(49, 10, Decomposition(4, 3));
    } else {
      assert Pow(11, 3) % 49 == 8 && (8 * 8) % 49 == 15 && (15 * 15) % 49 == 29 && (29 * 29) % 49 == 8;
      assert !RoundPassesByValues(49, 11, Decomposition(4, 3));
    }
  }

  /** The bases 12 to 16 for 49, one at a time. */
  lemma BasesFor49From12(a: int)
    requires 12 <= a <= 16
    ensures RoundPassesByValues(49, a, Decomposition(4, 3)) <==> a in {18, 19, 30, 31}
  {
    if a == 12 {
      assert Pow(12, 3) % 49 == 13 && (13 * 13) % 49 == 22 && (22 * 22) % 49 == 43 && (43 * 43) % 49 == 36;
      assert !RoundPassesByValues(49, 12, Decomposition(4, 3));
    } else if a == 13 {
      assert Pow(13, 3) % 49 == 41 && (41 * 41) % 49 == 15 && (15 * 15) % 49 == 29 && (29 * 29) % 49 == 8;
      assert !RoundPassesByValues(49, 13, Decomposition(4, 3));
    } else if a == 14 {
      assert Pow(14, 3) % 49 == 0 && (0 * 0) % 49 == 0 && (0 * 0) % 49 == 0 && (0 * 0) % 49 == 0;
      assert !RoundPassesByValues(49, 14, Decomposition(4, 3));
    } else if a == 15 {
      assert Pow(15, 3) % 49 == 43 && (43 * 43) % 49 == 36 && (36 * 36) % 49 == 22 && (22 * 22) % 49 == 43;
      assert !RoundPassesByValues(49, 15, Decomposition(4, 3));
    } else {
      assert Pow(16, 3) % 49 == 29 && (29 * 29) % 49 == 8 && (8 * 8) % 49 == 15 && (15 * 15) % 49 == 29;
      assert !RoundPassesByValues(49, 16, Decomposition(4, 3));
    }
  }

  /** The bases 17 to 21 for 49, one at a time. */
  lemma BasesFor49From17(a: int)
    requires 17 <= a <= 21
    ensures RoundPassesByValues(49, a, Decomposition(4, 3)) <==> a in {18, 19, 30, 31}
  {
    if a == 17 {
      assert Pow(17, 3) % 49 == 13 && (13 * 13) % 49 == 22 && (22 * 22) % 49 == 43 && (43 * 43) % 49 == 36;
      assert !RoundPassesByValues(49, 17, Decomposition(4, 3));
    } else if a == 18 {
      assert Pow(18, 3) % 49 == 1;
      assert RoundPassesByValues(49, 18, Decomposition(4, 3));
    } else if a == 19 {
      assert Pow(19, 3) % 49 == 48;
      assert RoundPassesByValues(49, 19, Decomposition(4, 3));
    } else if a == 20 {
      assert Pow(20, 3) % 49 == 13 && (13 * 13) % 49 == 22 && (22 * 22) % 49 == 43 && (43 * 43) % 49 == 36;
      assert !RoundPassesByValues(49, 20, Decomposition(4, 3));
    } else {
      assert Pow(21, 3) % 49 == 0 && (0 * 0) % 49 == 0 && (0 * 0) % 49 == 0 && (0 * 0) % 49 == 0;
      assert !RoundPassesByValues(49, 21, Decomposition(4, 3));
    }
  }

  /** The bases 22 to 24 for 49, one at a time. */
  lemma BasesFor49From22(a: int)
    requires 22 <= a <= 24
    ensures RoundPassesByValues(49, a, Decomposition(4, 3)) <==> a in {18, 19, 30, 31}
  {
    if a == 22 {
      assert Pow(22, 3) % 49 == 15 && (15 * 15) % 49 == 29 && (29 * 29) % 49 == 8 && (8 * 8) % 49 == 15;
      assert !RoundPassesByValues(49, 22, Decomposition(4, 3));
    } else if a == 23 {
      assert Pow(23, 3) % 49 == 15 && (15 * 15) % 49 == 29 && (29 * 29) % 49 == 8 && (8 * 8) % 49 == 15;
      assert !RoundPassesByValues(49, 23, Decomposition(4, 3));
    } else {
      assert Pow(24, 3) % 49 == 6 && (6 * 6) % 49 == 36 && (36 * 36) % 49 == 22 && (22 * 22) % 49 == 43;
      assert !RoundPassesByValues(49, 24, Decomposition(4, 3));
    }
  }

  /** The bases in `[2, 47]` whose round passes for 49: 18, 19, 30 and 31. Bases
      above 24 mirror the ones below. */
  lemma BasesFor49(a: int)
    requires 2 <= a <= 47
    ensures RoundPassesByValues(49, a, Decomposition(4, 3)) <==> a in {18, 19, 30, 31}
  {
    RoundPassesMirror(49, a, Decomposition(4, 3));
    var b := if a <= 24 then a else 49 - a;
    if b <= 6 {
      BasesFor49From2(b);
    } else if b <= 11 {
      BasesFor49From7(b);
    } else if b <= 16 {
      BasesFor49From12(b);
    } else if b <= 21 {
      BasesFor49From17(b);
    } else {
      BasesFor49From22(b);
    }
  }

  /** The unit test at main.py, line 85: 49 is composite, and
      a draw answers `True` exactly when all its bases are among 18, 19, 30 and 31. */
  lemma MillerRabinExampleLine85(witnesses: seq<int>)
    requires InDrawRange(49, witnesses)
    ensures MillerRabin(49, witnesses) <==> forall i :: 0 <= i < |witnesses| ==> witnesses[i] in {18, 19, 30, 31}
  {
    assert Halvings(48) == Decomposition(4, 3);
    forall a | 2 <= a <= 47
      ensures RoundPassesByValues(49, a, Halvings(48)) <==> a in {18, 19, 30, 31}
    {
      BasesFor49(a);
    }
    DrawDecides(49, {18, 19, 30, 31}, witnesses);
  }

  /** The test at line 84 depends on the draw: 25 is not prime, yet a
      five-base draw of its liars answers `True`. */
  lemma LiarDrawAccepted25()
    ensures !IsPrime(25) && MillerRabin(25, [7, 18, 7, 18, 7])
  {
    var witnesses := [7, 18, 7, 18, 7];
    assert forall i :: 0 <= i < |witnesses| ==> witnesses[i] in {7, 18};
    MillerRabinExampleLine84(witnesses);
    assert Divides(5, 25);
  }

  /** The test at line 85 depends on the draw: 49 is not prime, yet a
      five-base draw of its liars answers `True`. */
  lemma LiarDrawAccepted49()
    ensures !IsPrime(49) && MillerRabin(49, [18, 19, 30, 31, 18])
  {
    var witnesses := [18, 19, 30, 31, 18];
    assert forall i :: 0 <= i < |witnesses| ==> witnesses[i] in {18, 19, 30, 31};
    MillerRabinExampleLine85(witnesses);
    assert Divides(7, 49);
  }
}
