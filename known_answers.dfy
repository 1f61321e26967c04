/**
 * The known answers of the test modules (src/algorithms/mod.rs:147-178,
 * src/algorithms.rs:237-243), derived from the model: 12, 15, 40 and 42 factor to
 * `[2, 2, 3]`, `[3, 5]`, `[2, 2, 2, 5]` and `[2, 3, 7]`, whatever witnesses Miller-Rabin
 * draws.
 */
module KnownAnswers {
  import opened Arith
  import opened Options
  import opened Gcd
  import opened Primality
  import opened Worklist
  import BrentsRho
  import Fermat
  import Legacy
  import TrialDivision

  // ---------------------------------------------------------------------------------------
  // Miller-Rabin rejects 15 and 21 on the first round, whatever the witness

  /** `a^7 mod 15` is neither 1 nor 14 for the witnesses up to 7 ... */
  lemma FifteenPowersLow(a: int)
    requires 2 <= a <= 7
    ensures ModPow(a, 7, 15) != 1 && ModPow(a, 7, 15) != 14
  {
    if a == 2 { assert Pow(2, 7) == 128; }
    else if a == 3 { assert Pow(3, 7) == 2187; }
    else if a == 4 { assert Pow(4, 7) == 16384; }
    else if a == 5 { assert Pow(5, 7) == 78125; }
    else if a == 6 { assert Pow(6, 7) == 279936; }
    else { assert Pow(7, 7) == 823543; }
  }

  /** ... and for those from 8 to 13. */
  lemma FifteenPowersHigh(a: int)
    requires 8 <= a <= 13
    ensures ModPow(a, 7, 15) != 1 && ModPow(a, 7, 15) != 14
  {
    if a == 8 { assert Pow(8, 7) == 2097152; }
    else if a == 9 { assert Pow(9, 7) == 4782969; }
    else if a == 10 { assert Pow(10, 7) == 10000000; }
    else if a == 11 { assert Pow(11, 7) == 19487171; }
    else if a == 12 { assert Pow(12, 7) == 35831808; }
    else { assert Pow(13, 7) == 62748517; }
  }

  /** `15 - 1 = 2 * 7`, and `a^7 mod 15` is neither 1 nor 14 for any witness `a`. */
  lemma FifteenRound(a: int)
    requires 2 <= a <= 13
    ensures !RoundPasses(15, a)
  {
    TwoAdicUnique(14, 1, 7);
    if a <= 7 {
      FifteenPowersLow(a);
    } else {
      FifteenPowersHigh(a);
    }
  }

  /** `a^5 mod 21` is neither 1 nor 20 for any witness `a`, and `a^10 mod 21` is not 20. */
  lemma TwentyOnePowersLow(a: int)
    requires 2 <= a <= 10
    ensures ModPow(a, 5, 21) != 1 && ModPow(a, 5, 21) != 20 && ModPow(a, 10, 21) != 20
  {
    if a == 2 { assert Pow(2, 5) == 32 && Pow(2, 10) == 1024; }
    else if a == 3 { assert Pow(3, 5) == 243 && Pow(3, 10) == 59049; }
    else if a == 4 { assert Pow(4, 5) == 1024 && Pow(4, 10) == 1048576; }
    else if a == 5 { assert Pow(5, 5) == 3125 && Pow(5, 10) == 9765625; }
    else if a == 6 { assert Pow(6, 5) == 7776 && Pow(6, 10) == 60466176; }
    else if a == 7 { assert Pow(7, 5) == 16807 && Pow(7, 10) == 282475249; }
    else if a == 8 { assert Pow(8, 5) == 32768 && Pow(8, 10) == 1073741824; }
    else if a == 9 { assert Pow(9, 5) == 59049 && Pow(9, 10) == 3486784401; }
    else { assert Pow(10, 5) == 100000 && Pow(10, 10) == 10000000000; }
  }

  lemma TwentyOnePowersHigh(a: int)
    requires 11 <= a <= 19
    ensures ModPow(a, 5, 21) != 1 && ModPow(a, 5, 21) != 20 && ModPow(a, 10, 21) != 20
  {
    if a == 11 { assert Pow(11, 5) == 161051 && Pow(11, 10) == 25937424601; }
    else if a == 12 { assert Pow(12, 5) == 248832 && Pow(12, 10) == 61917364224; }
    else if a == 13 { assert Pow(13, 5) == 371293 && Pow(13, 10) == 137858491849; }
    else if a == 14 { assert Pow(14, 5) == 537824 && Pow(14, 10) == 289254654976; }
    else if a == 15 { assert Pow(15, 5) == 759375 && Pow(15, 10) == 576650390625; }
    else if a == 16 { assert Pow(16, 5) == 1048576 && Pow(16, 10) == 1099511627776; }
    else if a == 17 { assert Pow(17, 5) == 1419857 && Pow(17, 10) == 2015993900449; }
    else if a == 18 { assert Pow(18, 5) == 1889568 && Pow(18, 10) == 3570467226624; }
    else { assert Pow(19, 5) == 2476099 && Pow(19, 10) == 6131066257801; }
  }

  /** `21 - 1 = 4 * 5`: for every witness `a`, `a^5 mod 21` is neither 1 nor 20, and neither
      is its square. */
  lemma TwentyOneRound(a: int)
    requires 2 <= a <= 19
    ensures !RoundPasses(21, a)
  {
    TwoAdicUnique(20, 2, 5);
    if a <= 10 {
      TwentyOnePowersLow(a);
    } else {
      TwentyOnePowersHigh(a);
    }
    forall i | 1 <= i < 2
      ensures Squared(a, 5, i, 21) != 20
    {
      assert i == 1 && 5 * Pow2(1) == 10;
    }
  }

  lemma TwentyOneComposite(draw: RandomSource)
    ensures MillerRabinSpec(21, 40, draw) == Composite
  {
    TwentyOneRound(Witness(21, draw, 0));
  }

  lemma FifteenComposite(draw: RandomSource)
    ensures MillerRabinSpec(15, 40, draw) == Composite
  {
    FifteenRound(Witness(15, draw, 0));
  }

  /** The low composites of the test module are rejected and the low primes accepted,
      whatever the witnesses (src/algorithms/mod.rs:82-83, 97-115). */
  lemma MillerRabinLowNumbers(draw: RandomSource)
    ensures forall c :: c in [1, 4, 6, 8, 9, 10, 12, 14, 15, 16] ==> MillerRabinSpec(c, 40, draw) == Composite
    ensures forall p :: p in [2, 3, 5, 7, 11, 13, 17, 19, 23, 29] ==> MillerRabinSpec(p, 40, draw) == ProbablyPrime
  {
    MillerRabinLowComposites(draw);
    MillerRabinLowPrimes(draw);
  }

  lemma MillerRabinLowComposites(draw: RandomSource)
    ensures forall c :: c in [1, 4, 6, 8, 9, 10, 12, 14, 15, 16] ==> MillerRabinSpec(c, 40, draw) == Composite
  {
    forall c | c in [1, 4, 6, 8, 9, 10, 12, 14, 15, 16]
      ensures MillerRabinSpec(c, 40, draw) == Composite
    {
      if c == 9 {
        Fermat.NineComposite(draw);
      } else if c == 15 {
        FifteenComposite(draw);
      }
    }
  }

  lemma MillerRabinLowPrimes(draw: RandomSource)
    ensures forall p :: p in [2, 3, 5, 7, 11, 13, 17, 19, 23, 29] ==> MillerRabinSpec(p, 40, draw) == ProbablyPrime
  {
    forall p | p in [2, 3, 5, 7, 11, 13, 17, 19, 23, 29]
      ensures MillerRabinSpec(p, 40, draw) == ProbablyPrime
    {
      LowPrime(p);
      MillerRabinSound(p, 40, draw);
    }
  }

  lemma LowPrime(p: int)
    requires p in [2, 3, 5, 7, 11, 13, 17, 19, 23, 29]
    ensures IsPrime(p)
  {
  }

  // ---------------------------------------------------------------------------------------
  // The rho splitter on 15 and 21

  /** With offset 1 the cursors on 15 are 5 and 11 after one round: `gcd(6, 15) = 3`. */
  lemma FifteenSplits()
    ensures BrentsRho.SplitFrom(15, 1) == Some(3)
  {
    assert BrentsRho.Cursor(15, 1, 1) == 5;
    assert BrentsRho.Cursor(15, 1, 2) == 11;
    assert GcdOf(6, 15) == 3;
    BrentsRho.SingleSpecAt(15, 1, 1);
  }

  /** With offset 1 the cursors on 21 meet at once (`5` and `26 mod 21 = 5`): that offset
      fails. */
  lemma TwentyOneOffsetOne()
    ensures BrentsRho.SingleSpec(21, 1) == None
  {
    assert BrentsRho.Cursor(21, 1, 1) == 5;
    assert BrentsRho.Cursor(21, 1, 2) == 5;
    assert GcdOf(0, 21) == 21;
    BrentsRho.SingleSpecAt(21, 1, 1);
  }

  /** With offset 2 the first round gives `gcd(|6 - 17|, 21) = 1`, the second
      `gcd(|17 - 11|, 21) = 3`. */
  lemma TwentyOneOffsetTwo()
    ensures BrentsRho.SingleSpec(21, 2) == Some(3)
  {
    TwentyOneCursors();
    assert GcdOf(11, 21) == 1;
    assert GcdOf(6, 21) == 3;
    assert BrentsRho.Probe(21, 2, 1) == 1;
    BrentsRho.SingleSpecAt(21, 2, 2);
  }

  /** The cursors on 21 with offset 2: 6, 17, 18, 11. */
  lemma TwentyOneCursors()
    ensures BrentsRho.Cursor(21, 2, 1) == 6 && BrentsRho.Cursor(21, 2, 2) == 17
    ensures BrentsRho.Cursor(21, 2, 3) == 18 && BrentsRho.Cursor(21, 2, 4) == 11
  {
    assert BrentsRho.Cursor(21, 2, 1) == 6;
    assert BrentsRho.Cursor(21, 2, 2) == 17;
    assert BrentsRho.Cursor(21, 2, 3) == 18;
  }

  /** So the driver's retry loop splits 21 with its second offset. */
  lemma TwentyOneSplits()
    ensures BrentsRho.SplitFrom(21, 1) == Some(3)
  {
    TwentyOneOffsetOne();
    TwentyOneOffsetTwo();
  }

  // ---------------------------------------------------------------------------------------
  // Fermat's search on 15 and 21

  /** `ceiling_root(15) = 3`; `3^2 - 15 < 0`, `4^2 - 15 = 1 = 1^2`: the factor is `4 - 1`. */
  lemma FifteenFermat()
    ensures Fermat.FermatFactor(15) == 3
  {
    IsqrtUnique(15, 3);
    assert Fermat.CeilingRoot(15) == 3;
    IsqrtUnique(1, 1);
    assert !IsSquare(Fermat.Excess(3, 15)) && IsSquare(Fermat.Excess(4, 15));
    assert Fermat.FirstSquareFrom(15, 3) == 4;
  }

  /** `ceiling_root(21) = 4`; `4^2 - 21 < 0`, `5^2 - 21 = 4 = 2^2`: the factor is `5 - 2`. */
  lemma TwentyOneFermat()
    ensures Fermat.FermatFactor(21) == 3
  {
    IsqrtUnique(21, 4);
    assert Fermat.CeilingRoot(21) == 4;
    IsqrtUnique(4, 2);
    assert !IsSquare(Fermat.Excess(4, 21)) && IsSquare(Fermat.Excess(5, 21));
    assert Fermat.FirstSquareFrom(21, 4) == 5;
  }

  // ---------------------------------------------------------------------------------------
  // The drivers on 12, 15, 40 and 42

  /** `n == 2^s * p` with `p` an odd prime. */
  ghost predicate OddPrimePart(n: int, s: nat, p: int) {
    Pow2(s) * p == n && IsPrime(p) && p % 2 == 1 && n >= 2
  }

  /** `n == 2^s * m` with `m == f * t` odd and `f`, `t` prime. */
  ghost predicate OddSemiprimePart(n: int, s: nat, m: int, f: int, t: int) {
    Pow2(s) * m == n && m % 2 == 1 && m != 1 && f >= 1 && f * t == m && IsPrime(f) && IsPrime(t) && n >= 2
  }

  lemma TwelveShape()
    ensures OddPrimePart(12, 2, 3) && Repeat(2, 2) + [3] == [2, 2, 3]
  {
  }

  lemma FortyShape()
    ensures OddPrimePart(40, 3, 5) && Repeat(2, 3) + [5] == [2, 2, 2, 5]
  {
  }

  lemma FifteenShape()
    ensures OddSemiprimePart(15, 0, 15, 3, 5) && Repeat(2, 0) + [3, 5] == [3, 5]
  {
  }

  lemma FortyTwoShape()
    ensures OddSemiprimePart(42, 1, 21, 3, 7) && Repeat(2, 1) + [3, 7] == [2, 3, 7]
  {
  }

  /** A number whose odd part is a prime comes out as its twos and that prime. */
  lemma DriveOddPrime(n: int, s: nat, p: int, draw: RandomSource, split: int -> Option<Positive>,
                      stopOnOne: bool, fuel: nat)
    requires OddPrimePart(n, s, p) && fuel >= 1
    ensures Drive(n, PassesTest(draw), split, stopOnOne, fuel) == Factors(Repeat(2, s) + [p])
  {
    TwoAdicUnique(n, s, p);
    MillerRabinSound(p, 40, draw);
    RunPopPrime([p], Repeat(2, s), PassesTest(draw), split, stopOnOne, fuel);
    assert [p][1..] == [];
  }

  /** A number whose odd part `m` Miller-Rabin rejects and the splitter cuts into two odd
      primes `f` and `t` comes out as its twos, `f` and `t`. */
  lemma DriveOddSemiprime(n: int, s: nat, m: int, f: Positive, t: int, draw: RandomSource,
                          split: int -> Option<Positive>, stopOnOne: bool, fuel: nat)
    requires OddSemiprimePart(n, s, m, f, t) && MillerRabinSpec(m, 40, draw) == Composite
    requires split(m) == Some(f) && fuel >= 3
    ensures Drive(n, PassesTest(draw), split, stopOnOne, fuel) == Factors(Repeat(2, s) + [f, t])
  {
    var isPrime := PassesTest(draw);
    TwoAdicUnique(n, s, m);
    DivModUnique(m, f, t, 0);
    MillerRabinSound(f, 40, draw);
    MillerRabinSound(t, 40, draw);
    RunPopSplit([m], Repeat(2, s), isPrime, split, stopOnOne, fuel, f);
    assert [m][1..] + [f, t] == [f, t];
    RunPopPrime([f, t], Repeat(2, s), isPrime, split, stopOnOne, fuel - 1);
    assert [f, t][1..] == [t];
    RunPopPrime([t], Repeat(2, s) + [f], isPrime, split, stopOnOne, fuel - 2);
    assert [t][1..] == [];
    assert Repeat(2, s) + [f] + [t] == Repeat(2, s) + [f, t];
  }

  /** The rho driver on a number whose odd part is prime. */
  lemma RhoOddPrime(n: int, s: nat, p: int, draw: RandomSource)
    requires OddPrimePart(n, s, p)
    ensures BrentsRho.FactorSpec(n, draw) == Factors(Repeat(2, s) + [p])
  {
    DriveOddPrime(n, s, p, draw, BrentsRho.RhoSplitter(), true, 2 * n);
  }

  /** The rho driver on a number whose odd part is a semiprime it splits. */
  lemma RhoSemiprime(n: int, s: nat, m: int, f: Positive, t: int, draw: RandomSource)
    requires OddSemiprimePart(n, s, m, f, t) && MillerRabinSpec(m, 40, draw) == Composite
    requires BrentsRho.RhoSplitter()(m) == Some(f)
    ensures BrentsRho.FactorSpec(n, draw) == Factors(Repeat(2, s) + [f, t])
  {
    DriveOddSemiprime(n, s, m, f, t, draw, BrentsRho.RhoSplitter(), true, 2 * n);
  }

  /** `BrentsRho::factor` on the composites of the test module
      (src/algorithms/mod.rs:158-163). */
  lemma BrentsRhoLowComposites(draw: RandomSource)
    ensures BrentsRho.FactorSpec(12, draw) == Factors([2, 2, 3])
    ensures BrentsRho.FactorSpec(15, draw) == Factors([3, 5])
    ensures BrentsRho.FactorSpec(40, draw) == Factors([2, 2, 2, 5])
    ensures BrentsRho.FactorSpec(42, draw) == Factors([2, 3, 7])
  {
    RhoTwelve(draw);
    RhoFifteen(draw);
    RhoForty(draw);
    RhoFortyTwo(draw);
  }

  lemma RhoTwelve(draw: RandomSource)
    ensures BrentsRho.FactorSpec(12, draw) == Factors([2, 2, 3])
  {
    TwelveShape();
    RhoOddPrime(12, 2, 3, draw);
  }

  lemma RhoForty(draw: RandomSource)
    ensures BrentsRho.FactorSpec(40, draw) == Factors([2, 2, 2, 5])
  {
    FortyShape();
    RhoOddPrime(40, 3, 5, draw);
  }

  lemma RhoFifteen(draw: RandomSource)
    ensures BrentsRho.FactorSpec(15, draw) == Factors([3, 5])
  {
    FifteenShape();
    FifteenComposite(draw);
    RhoSplitsFifteen();
    RhoSemiprime(15, 0, 15, 3, 5, draw);
  }

  lemma RhoSplitsFifteen()
    ensures BrentsRho.RhoSplitter()(15) == Some(3)
  {
    FifteenSplits();
  }

  lemma RhoFortyTwo(draw: RandomSource)
    ensures BrentsRho.FactorSpec(42, draw) == Factors([2, 3, 7])
  {
    FortyTwoShape();
    TwentyOneComposite(draw);
    RhoSplitsTwentyOne();
    RhoSemiprime(42, 1, 21, 3, 7, draw);
  }

  lemma RhoSplitsTwentyOne()
    ensures BrentsRho.RhoSplitter()(21) == Some(3)
  {
    TwentyOneSplits();
  }

  /** `Fermat::factor` on the composites of the test module (src/algorithms/mod.rs:172-177),
      given enough pops. */
  lemma FermatLowComposites(draw: RandomSource, fuel: nat)
    requires fuel >= 3
    ensures Fermat.FermatSpec(12, draw, fuel) == Factors([2, 2, 3])
    ensures Fermat.FermatSpec(15, draw, fuel) == Factors([3, 5])
    ensures Fermat.FermatSpec(40, draw, fuel) == Factors([2, 2, 2, 5])
    ensures Fermat.FermatSpec(42, draw, fuel) == Factors([2, 3, 7])
  {
    FermatTwelve(draw, fuel);
    FermatForty(draw, fuel);
    FermatFifteen(draw, fuel);
    FermatFortyTwo(draw, fuel);
  }

  /** The Fermat driver on a number whose odd part is prime. */
  lemma FermatOddPrime(n: int, s: nat, p: int, draw: RandomSource, fuel: nat)
    requires OddPrimePart(n, s, p) && fuel >= 1
    ensures Fermat.FermatSpec(n, draw, fuel) == Factors(Repeat(2, s) + [p])
  {
    DriveOddPrime(n, s, p, draw, Fermat.FermatSplitter(), false, fuel);
  }

  /** The Fermat driver on a number whose odd part is a semiprime the search splits. */
  lemma FermatSemiprime(n: int, s: nat, m: int, f: Positive, t: int, draw: RandomSource, fuel: nat)
    requires OddSemiprimePart(n, s, m, f, t) && MillerRabinSpec(m, 40, draw) == Composite
    requires Fermat.FermatSplitter()(m) == Some(f) && fuel >= 3
    ensures Fermat.FermatSpec(n, draw, fuel) == Factors(Repeat(2, s) + [f, t])
  {
    DriveOddSemiprime(n, s, m, f, t, draw, Fermat.FermatSplitter(), false, fuel);
  }

  lemma FermatTwelve(draw: RandomSource, fuel: nat)
    requires fuel >= 1
    ensures Fermat.FermatSpec(12, draw, fuel) == Factors([2, 2, 3])
  {
    TwelveShape();
    FermatOddPrime(12, 2, 3, draw, fuel);
  }

  lemma FermatForty(draw: RandomSource, fuel: nat)
    requires fuel >= 1
    ensures Fermat.FermatSpec(40, draw, fuel) == Factors([2, 2, 2, 5])
  {
    FortyShape();
    FermatOddPrime(40, 3, 5, draw, fuel);
  }

  lemma FermatFifteen(draw: RandomSource, fuel: nat)
    requires fuel >= 3
    ensures Fermat.FermatSpec(15, draw, fuel) == Factors([3, 5])
  {
    FifteenShape();
    FifteenComposite(draw);
    FermatSplitsFifteen();
    FermatSemiprime(15, 0, 15, 3, 5, draw, fuel);
  }

  lemma FermatSplitsFifteen()
    ensures Fermat.FermatSplitter()(15) == Some(3)
  {
    FifteenFermat();
  }

  lemma FermatFortyTwo(draw: RandomSource, fuel: nat)
    requires fuel >= 3
    ensures Fermat.FermatSpec(42, draw, fuel) == Factors([2, 3, 7])
  {
    FortyTwoShape();
    TwentyOneComposite(draw);
    FermatSplitsTwentyOne();
    FermatSemiprime(42, 1, 21, 3, 7, draw, fuel);
  }

  lemma FermatSplitsTwentyOne()
    ensures Fermat.FermatSplitter()(21) == Some(3)
  {
    TwentyOneFermat();
  }

  /** `brents_rho` of src/algorithms.rs on the same composites (src/algorithms.rs:237-243):
      the factors are already in order, so the sort keeps them. */
  lemma LegacyLowComposites(draw: RandomSource)
    ensures Legacy.LegacySpec(12, draw) == Factors([2, 2, 3])
    ensures Legacy.LegacySpec(15, draw) == Factors([3, 5])
    ensures Legacy.LegacySpec(40, draw) == Factors([2, 2, 2, 5])
    ensures Legacy.LegacySpec(42, draw) == Factors([2, 3, 7])
  {
    LegacyTwelve(draw);
    LegacyFifteen(draw);
    LegacyForty(draw);
    LegacyFortyTwo(draw);
  }

  lemma LegacyTwelve(draw: RandomSource)
    ensures Legacy.LegacySpec(12, draw) == Factors([2, 2, 3])
  {
    RhoTwelve(draw);
    LegacyInOrder(12, [2, 2, 3], draw);
  }

  lemma LegacyFifteen(draw: RandomSource)
    ensures Legacy.LegacySpec(15, draw) == Factors([3, 5])
  {
    RhoFifteen(draw);
    LegacyInOrder(15, [3, 5], draw);
  }

  lemma LegacyForty(draw: RandomSource)
    ensures Legacy.LegacySpec(40, draw) == Factors([2, 2, 2, 5])
  {
    RhoForty(draw);
    LegacyInOrder(40, [2, 2, 2, 5], draw);
  }

  lemma LegacyFortyTwo(draw: RandomSource)
    ensures Legacy.LegacySpec(42, draw) == Factors([2, 3, 7])
  {
    RhoFortyTwo(draw);
    LegacyInOrder(42, [2, 3, 7], draw);
  }

  /** Where the newer copy returns its factors in order, the sort of the older copy keeps
      them as they are. */
  lemma LegacyInOrder(n: int, fs: seq<int>, draw: RandomSource)
    requires n >= 1 && BrentsRho.FactorSpec(n, draw) == Factors(fs)
    requires forall i :: 0 <= i < |fs| - 1 ==> fs[i] <= fs[i + 1]
    ensures Legacy.LegacySpec(n, draw) == Factors(fs)
  {
    InOrderSorted(fs);
    Legacy.SortSorted(fs);
  }

  /** Neighbours in order make the whole list sorted. */
  lemma {:induction false} InOrderSorted(fs: seq<int>)
    requires forall i :: 0 <= i < |fs| - 1 ==> fs[i] <= fs[i + 1]
    ensures TrialDivision.Sorted(fs)
  {
    if |fs| > 1 {
      var tail := fs[1..];
      assert forall i :: 0 <= i < |tail| - 1 ==> tail[i] <= tail[i + 1] by {
        forall i | 0 <= i < |tail| - 1
          ensures tail[i] <= tail[i + 1]
        {
          assert tail[i] == fs[i + 1] && tail[i + 1] == fs[i + 2];
        }
      }
      InOrderSorted(tail);
      forall i, j | 0 <= i < j < |fs|
        ensures fs[i] <= fs[j]
      {
        if i == 0 {
          assert fs[1] == tail[0] && fs[j] == tail[j - 1];
        } else {
          assert fs[i] == tail[i - 1] && fs[j] == tail[j - 1];
        }
      }
    }
  }
}
