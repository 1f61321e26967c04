/**
 * The worklist that both `Factorize` implementations built on a splitter share
 * (src/algorithms/brents_rho.rs:38-74, src/algorithms/fermat.rs:20-59,
 * src/algorithms.rs:42-87): numbers wait in a FIFO queue; a popped number is either 1, a
 * probable prime that joins the factors, or a composite that the splitter cuts into a factor and
 * its twin, both pushed to the back.
 *
 * `Run` states what the driver computes, with the primality oracle and the splitter as
 * parameters and a bound `fuel` on the number of pops, since the Fermat driver does not always
 * finish. `stopOnOne` selects the Brent's rho behaviour of returning as soon as a 1 is popped;
 * the Fermat driver skips the 1 and goes on.
 */
module Worklist {
  import opened Arith
  import opened Options

  /** The type of a factor handed back by a splitter. */
  type Positive = x: int | x >= 1 witness 1

  datatype Outcome =
    | Factors(factors: seq<int>)  // the driver returned these factors
    | Unsplit(number: int)        // the splitter gave up on `number`; the source panics
    | OutOfFuel                   // the bound on the number of pops ran out first

  function Run(queue: seq<int>, factors: seq<int>, isPrime: int -> bool, split: int -> Option<Positive>,
               stopOnOne: bool, fuel: nat): Outcome
    decreases fuel
  {
    if queue == [] then Factors(factors)
    else if fuel == 0 then OutOfFuel
    else
      var m, rest := queue[0], queue[1..];
      if m == 1 then
        if stopOnOne then Factors(factors) else Run(rest, factors, isPrime, split, stopOnOne, fuel - 1)
      else if isPrime(m) then
        Run(rest, factors + [m], isPrime, split, stopOnOne, fuel - 1)
      else
        match split(m)
        case None => Unsplit(m)
        case Some(f) => Run(rest + [f, m / f], factors, isPrime, split, stopOnOne, fuel - 1)
  }

  /** The loop that opens every driver: push a 2 and halve while the number is even
      (src/algorithms/brents_rho.rs:42-45, src/algorithms/fermat.rs:26-29; the remainder
      test of src/algorithms.rs:45-53 is the same loop). It never ends on 0. */
  method StripTwos(n: int) returns (twos: seq<int>, odd: int)
    requires n != 0
    ensures (|twos|, odd) == TwoAdic(n)
    ensures twos == Repeat(2, |twos|) && Pow2(|twos|) * odd == n && odd % 2 == 1
  {
    twos, odd := [], n;
    while Divides(2, odd)
      invariant odd != 0 && twos == Repeat(2, |twos|)
      invariant TwoAdic(n) == (|twos| + TwoAdic(odd).0, TwoAdic(odd).1)
      decreases Abs(odd)
    {
      twos := twos + [2];
      odd := odd / 2;
    }
  }

  // One pop of the driver, case by case.

  lemma RunPopOne(queue: seq<int>, factors: seq<int>, isPrime: int -> bool, split: int -> Option<Positive>,
                  stopOnOne: bool, fuel: nat)
    requires queue != [] && fuel > 0 && queue[0] == 1
    ensures Run(queue, factors, isPrime, split, stopOnOne, fuel)
         == if stopOnOne then Factors(factors) else Run(queue[1..], factors, isPrime, split, stopOnOne, fuel - 1)
  {
  }

  lemma RunPopPrime(queue: seq<int>, factors: seq<int>, isPrime: int -> bool, split: int -> Option<Positive>,
                    stopOnOne: bool, fuel: nat)
    requires queue != [] && fuel > 0 && queue[0] != 1 && isPrime(queue[0])
    ensures Run(queue, factors, isPrime, split, stopOnOne, fuel)
         == Run(queue[1..], factors + [queue[0]], isPrime, split, stopOnOne, fuel - 1)
  {
  }

  /** The driver returns its factors on an empty queue, and runs out of pops on a non-empty
      queue with no fuel left. */
  lemma RunStops(queue: seq<int>, factors: seq<int>, isPrime: int -> bool, split: int -> Option<Positive>,
                 stopOnOne: bool, fuel: nat)
    requires queue == [] || fuel == 0
    ensures Run(queue, factors, isPrime, split, stopOnOne, fuel) == if queue == [] then Factors(factors) else OutOfFuel
  {
  }

  /** `RunPopPrime` for a queue, factors and fuel already advanced by one pop. */
  lemma PopPrime(queue: seq<int>, factors: seq<int>, isPrime: int -> bool, split: int -> Option<Positive>,
                 stopOnOne: bool, fuel: nat, queue': seq<int>, factors': seq<int>, fuel': nat)
    requires queue != [] && fuel >= 1 && queue[0] != 1 && isPrime(queue[0])
    requires queue' == queue[1..] && factors' == factors + [queue[0]] && fuel' == fuel - 1
    ensures Run(queue', factors', isPrime, split, stopOnOne, fuel') == Run(queue, factors, isPrime, split, stopOnOne, fuel)
  {
    RunPopPrime(queue, factors, isPrime, split, stopOnOne, fuel);
  }

  lemma RunPopSplit(queue: seq<int>, factors: seq<int>, isPrime: int -> bool, split: int -> Option<Positive>,
                    stopOnOne: bool, fuel: nat, f: Positive)
    requires queue != [] && fuel > 0 && queue[0] != 1 && !isPrime(queue[0]) && split(queue[0]) == Some(f)
    ensures Run(queue, factors, isPrime, split, stopOnOne, fuel)
         == Run(queue[1..] + [f, queue[0] / f], factors, isPrime, split, stopOnOne, fuel - 1)
  {
  }

  lemma RunPopUnsplit(queue: seq<int>, factors: seq<int>, isPrime: int -> bool, split: int -> Option<Positive>,
                      stopOnOne: bool, fuel: nat)
    requires queue != [] && fuel > 0 && queue[0] != 1 && !isPrime(queue[0]) && split(queue[0]) == None
    ensures Run(queue, factors, isPrime, split, stopOnOne, fuel) == Unsplit(queue[0])
  {
  }

  /** A proper split of a positive number: the twin is a proper divisor too. */
  lemma TwinBounds(m: int, f: int)
    requires 1 < f < m && Divides(f, m)
    ensures 1 < m / f < m && f * (m / f) == m
  {
    var q := m / f;
    assert m == f * q by { assert m == f * q + m % f; }
    assert q >= 1;
    assert q != 1;
    assert m - q == (f - 1) * q;
    NonNegMul(f - 2, q);
    assert (f - 1) * q == (f - 2) * q + q;
  }

  /** The splitter cuts a positive number into a divisor and its twin. */
  ghost predicate Splits(split: int -> Option<Positive>) {
    forall m :: m >= 1 && split(m).Some? ==> Divides(split(m).value, m)
  }

  /** Neither part of a split is 1 or the number itself. */
  ghost predicate SplitsProperly(split: int -> Option<Positive>) {
    forall m :: m >= 2 && split(m).Some? ==> 1 < split(m).value < m
  }

  ghost predicate AllPositive(queue: seq<int>) {
    forall i :: 0 <= i < |queue| ==> queue[i] >= 1
  }

  /** A 1 in the queue is alone there: when the driver returns on popping a 1, nothing is left
      behind. */
  ghost predicate OneAlone(queue: seq<int>) {
    |queue| <= 1 || forall i :: 0 <= i < |queue| ==> queue[i] != 1
  }

  lemma SplitParts(split: int -> Option<Positive>, m: int, f: int)
    requires Splits(split) && m >= 1 && split(m) == Some(f)
    ensures f >= 1 && m / f >= 1 && f * (m / f) == m
  {
    DivisorBounds(f, m);
    assert m == f * (m / f) + m % f;
  }

  /** The key invariant: what the driver returns, times what is still queued, is the product of
      the factors found so far and the queue it started from. */
  lemma {:induction false} RunProduct(queue: seq<int>, factors: seq<int>, isPrime: int -> bool,
                                      split: int -> Option<Positive>, stopOnOne: bool, fuel: nat)
    requires Splits(split) && AllPositive(queue)
    requires stopOnOne ==> SplitsProperly(split) && OneAlone(queue)
    ensures var r := Run(queue, factors, isPrime, split, stopOnOne, fuel);
      r.Factors? ==> Product(r.factors) == Product(factors) * Product(queue)
    decreases fuel
  {
    if queue != [] && fuel > 0 {
      var m, rest := queue[0], queue[1..];
      if m == 1 {
        RunPopOne(queue, factors, isPrime, split, stopOnOne, fuel);
        ProductMoveHead(factors, queue);
        if !stopOnOne {
          RunProduct(rest, factors, isPrime, split, stopOnOne, fuel - 1);
        }
      } else if isPrime(m) {
        RunPopPrime(queue, factors, isPrime, split, stopOnOne, fuel);
        RunProduct(rest, factors + [m], isPrime, split, stopOnOne, fuel - 1);
        ProductMoveHead(factors, queue);
      } else if split(m).Some? {
        RunProductSplit(queue, factors, isPrime, split, stopOnOne, fuel);
      }
    }
  }

  /** Moving the head of the queue to the factors keeps the combined product; a head of 1
      leaves both products as they are. */
  lemma ProductMoveHead(factors: seq<int>, queue: seq<int>)
    requires queue != []
    ensures Product(factors + [queue[0]]) * Product(queue[1..]) == Product(factors) * Product(queue)
    ensures queue[0] == 1 ==> Product(queue) == Product(queue[1..])
  {
    var m, rest := queue[0], queue[1..];
    assert Product(queue) == m * Product(rest);
    ProductAppend(factors, [m]);
    assert Product([m]) == m;
    MulAssoc(Product(factors), m, Product(rest));
  }

  lemma RunProductSplit(queue: seq<int>, factors: seq<int>, isPrime: int -> bool,
                        split: int -> Option<Positive>, stopOnOne: bool, fuel: nat)
    requires Splits(split) && AllPositive(queue)
    requires stopOnOne ==> SplitsProperly(split) && OneAlone(queue)
    requires queue != [] && fuel > 0 && queue[0] != 1 && !isPrime(queue[0]) && split(queue[0]).Some?
    ensures var r := Run(queue, factors, isPrime, split, stopOnOne, fuel);
      r.Factors? ==> Product(r.factors) == Product(factors) * Product(queue)
    decreases fuel, 0
  {
    var m, rest := queue[0], queue[1..];
    var f := split(m).value;
    SplitParts(split, m, f);
    var g := m / f;
    var next := rest + [f, g];
    assert Run(queue, factors, isPrime, split, stopOnOne, fuel)
        == Run(next, factors, isPrime, split, stopOnOne, fuel - 1);
    PushTwo(queue, f, g, stopOnOne);
    RunProduct(next, factors, isPrime, split, stopOnOne, fuel - 1);
    ProductPushTwo(queue, f, g);
  }

  /** The queue after replacing its head `m` by a split `f * g == m` stays positive, and a
      proper split brings in no 1. */
  lemma PushTwo(queue: seq<int>, f: int, g: int, proper: bool)
    requires AllPositive(queue) && queue != [] && queue[0] != 1 && f >= 1 && g >= 1
    requires proper ==> OneAlone(queue) && f > 1 && g > 1
    ensures AllPositive(queue[1..] + [f, g])
    ensures proper ==> OneAlone(queue[1..] + [f, g])
  {
  }

  lemma ProductPushTwo(queue: seq<int>, f: int, g: int)
    requires queue != [] && f * g == queue[0]
    ensures Product(queue[1..] + [f, g]) == Product(queue)
  {
    var rest := queue[1..];
    ProductAppend(rest, [f, g]);
    assert [f, g][1..] == [g] && [g][1..] == [];
    assert Product([g]) == g;
    assert Product([f, g]) == f * g;
    assert Product(queue) == queue[0] * Product(rest);
  }

  /** The driver only appends: the factors it returns extend the ones it started with, and
      every appended factor passed the primality oracle. */
  lemma {:induction false} RunAppendsPrimes(queue: seq<int>, factors: seq<int>, isPrime: int -> bool,
                                            split: int -> Option<Positive>, stopOnOne: bool, fuel: nat)
    ensures var r := Run(queue, factors, isPrime, split, stopOnOne, fuel);
      r.Factors? ==>
        |r.factors| >= |factors| && r.factors[..|factors|] == factors &&
        forall i :: |factors| <= i < |r.factors| ==> isPrime(r.factors[i])
    decreases fuel
  {
    if queue != [] && fuel > 0 {
      var m, rest := queue[0], queue[1..];
      if m == 1 {
        if !stopOnOne {
          RunAppendsPrimes(rest, factors, isPrime, split, stopOnOne, fuel - 1);
        }
      } else if isPrime(m) {
        RunAppendsPrimes(rest, factors + [m], isPrime, split, stopOnOne, fuel - 1);
        var r := Run(rest, factors + [m], isPrime, split, stopOnOne, fuel - 1);
        if r.Factors? {
          assert r.factors[..|factors| + 1][..|factors|] == r.factors[..|factors|];
        }
      } else if split(m).Some? {
        var f := split(m).value;
        RunAppendsPrimes(rest + [f, m / f], factors, isPrime, split, stopOnOne, fuel - 1);
      }
    }
  }

  /** The driver gives up only on a queued number that is not 1, fails the primality oracle and
      defeats the splitter. */
  lemma {:induction false} RunUnsplit(queue: seq<int>, factors: seq<int>, isPrime: int -> bool,
                                      split: int -> Option<Positive>, stopOnOne: bool, fuel: nat)
    ensures var r := Run(queue, factors, isPrime, split, stopOnOne, fuel);
      r.Unsplit? ==> r.number != 1 && !isPrime(r.number) && split(r.number) == None
    decreases fuel
  {
    if queue != [] && fuel > 0 {
      var m, rest := queue[0], queue[1..];
      if m == 1 {
        if !stopOnOne {
          RunUnsplit(rest, factors, isPrime, split, stopOnOne, fuel - 1);
        }
      } else if isPrime(m) {
        RunUnsplit(rest, factors + [m], isPrime, split, stopOnOne, fuel - 1);
      } else if split(m).Some? {
        var f := split(m).value;
        RunUnsplit(rest + [f, m / f], factors, isPrime, split, stopOnOne, fuel - 1);
      }
    }
  }

  /** Every queued number divides `total`. */
  ghost predicate AllDivide(queue: seq<int>, total: int) {
    forall i :: 0 <= i < |queue| ==> Divides(queue[i], total)
  }

  /** The number the driver gives up on is a positive divisor of the number it started from. */
  lemma {:induction false} RunUnsplitDivides(queue: seq<int>, factors: seq<int>, isPrime: int -> bool,
                                             split: int -> Option<Positive>, stopOnOne: bool, fuel: nat,
                                             total: int)
    requires Splits(split) && AllPositive(queue) && AllDivide(queue, total)
    ensures var r := Run(queue, factors, isPrime, split, stopOnOne, fuel);
      r.Unsplit? ==> r.number >= 1 && Divides(r.number, total)
    decreases fuel
  {
    if queue != [] && fuel > 0 {
      var m, rest := queue[0], queue[1..];
      assert m >= 1 && Divides(m, total);
      if m == 1 {
        if !stopOnOne {
          RunUnsplitDivides(rest, factors, isPrime, split, stopOnOne, fuel - 1, total);
        }
      } else if isPrime(m) {
        RunUnsplitDivides(rest, factors + [m], isPrime, split, stopOnOne, fuel - 1, total);
      } else if split(m).Some? {
        var f := split(m).value;
        SplitParts(split, m, f);
        var g := m / f;
        PushTwo(queue, f, g, false);
        DividesTrans(f, m, total);
        DividesIntro(g, m, f);
        DividesTrans(g, m, total);
        var next := rest + [f, g];
        assert AllDivide(next, total) by {
          assert forall i :: 0 <= i < |next| ==> next[i] == if i < |rest| then rest[i] else [f, g][i - |rest|];
        }
        RunUnsplitDivides(next, factors, isPrime, split, stopOnOne, fuel - 1, total);
      }
    }
  }

  /** A measure that every pop lowers when splits are proper: each queued `m` weighs `2m - 1`,
      and `2f - 1 + 2g - 1 < 2fg - 1` for `f, g >= 2`. */
  function Potential(queue: seq<int>): int {
    if queue == [] then 0 else 2 * queue[0] - 1 + Potential(queue[1..])
  }

  lemma {:induction false} PotentialAppend(a: seq<int>, b: seq<int>)
    ensures Potential(a + b) == Potential(a) + Potential(b)
  {
    if a != [] {
      assert (a + b)[0] == a[0] && (a + b)[1..] == a[1..] + b;
      PotentialAppend(a[1..], b);
    } else {
      assert a + b == b;
    }
  }

  lemma {:induction false} PotentialPositive(queue: seq<int>)
    requires AllPositive(queue)
    ensures Potential(queue) >= |queue|
  {
    if queue != [] {
      PotentialPositive(queue[1..]);
    }
  }

  lemma SplitLowersPotential(f: int, g: int)
    requires f >= 2 && g >= 2
    ensures (2 * f - 1) + (2 * g - 1) <= 2 * (f * g) - 2
  {
    assert (f - 1) * (g - 1) >= 1 by {
      NonNegMul(f - 2, g - 2);
      assert (f - 1) * (g - 1) == (f - 2) * (g - 2) + (f - 2) + (g - 2) + 1;
    }
  }

  /** With proper splits, a fuel of `Potential(queue)` pops is enough: the driver never runs out,
      so it always returns factors or gives up on a number. */
  lemma {:induction false} RunTerminates(queue: seq<int>, factors: seq<int>, isPrime: int -> bool,
                                         split: int -> Option<Positive>, stopOnOne: bool, fuel: nat)
    requires Splits(split) && SplitsProperly(split) && AllPositive(queue)
    requires fuel >= Potential(queue)
    ensures Run(queue, factors, isPrime, split, stopOnOne, fuel) != OutOfFuel
    decreases fuel
  {
    if queue != [] {
      PotentialPositive(queue);
      var m, rest := queue[0], queue[1..];
      assert Potential(queue) == 2 * m - 1 + Potential(rest);
      if m == 1 {
        if !stopOnOne {
          RunTerminates(rest, factors, isPrime, split, stopOnOne, fuel - 1);
        }
      } else if isPrime(m) {
        RunTerminates(rest, factors + [m], isPrime, split, stopOnOne, fuel - 1);
      } else if split(m).Some? {
        var f := split(m).value;
        SplitParts(split, m, f);
        var g := m / f;
        assert Run(queue, factors, isPrime, split, stopOnOne, fuel)
            == Run(rest + [f, g], factors, isPrime, split, stopOnOne, fuel - 1);
        PushTwo(queue, f, g, false);
        PotentialPushTwo(queue, f, g);
        RunTerminates(rest + [f, g], factors, isPrime, split, stopOnOne, fuel - 1);
      }
    }
  }

  /** Replacing the head `m` of the queue by a proper split lowers the potential by at least
      one. */
  lemma PotentialPushTwo(queue: seq<int>, f: int, g: int)
    requires queue != [] && f >= 2 && g >= 2 && f * g == queue[0]
    ensures Potential(queue[1..] + [f, g]) <= Potential(queue) - 1
  {
    var rest := queue[1..];
    SplitLowersPotential(f, g);
    PotentialAppend(rest, [f, g]);
    assert [f, g][1..] == [g] && [g][1..] == [];
    assert Potential([g]) == 2 * g - 1;
    assert Potential([f, g]) == (2 * f - 1) + (2 * g - 1);
  }

  /** More fuel changes nothing once the driver has finished. */
  lemma {:induction false} RunFuelMonotone(queue: seq<int>, factors: seq<int>, isPrime: int -> bool,
                                           split: int -> Option<Positive>, stopOnOne: bool, fuel: nat, more: nat)
    requires fuel <= more
    requires Run(queue, factors, isPrime, split, stopOnOne, fuel) != OutOfFuel
    ensures Run(queue, factors, isPrime, split, stopOnOne, more) == Run(queue, factors, isPrime, split, stopOnOne, fuel)
    decreases fuel
  {
    if queue != [] {
      var m, rest := queue[0], queue[1..];
      if m == 1 {
        if !stopOnOne {
          RunFuelMonotone(rest, factors, isPrime, split, stopOnOne, fuel - 1, more - 1);
        }
      } else if isPrime(m) {
        RunFuelMonotone(rest, factors + [m], isPrime, split, stopOnOne, fuel - 1, more - 1);
      } else if split(m).Some? {
        var f := split(m).value;
        RunFuelMonotone(rest + [f, m / f], factors, isPrime, split, stopOnOne, fuel - 1, more - 1);
      }
    }
  }

  // ---------------------------------------------------------------------------------------
  // The whole driver: strip the twos, then run the worklist on the odd part

  function Drive(n: int, isPrime: int -> bool, split: int -> Option<Positive>, stopOnOne: bool, fuel: nat): Outcome
    requires n >= 1
  {
    var (s, odd) := TwoAdic(n);
    Run([odd], Repeat(2, s), isPrime, split, stopOnOne, fuel)
  }

  /** The odd part of `n` is at most `n`, so `2 * n` pops are enough for it. */
  lemma OddPartBound(n: int)
    requires n >= 1
    ensures 1 <= TwoAdic(n).1 <= n && Potential([TwoAdic(n).1]) <= 2 * n
  {
    var (s, odd) := TwoAdic(n);
    MulAtLeast(Pow2(s), odd);
    assert Potential([odd]) == 2 * odd - 1;
  }

  /** The factors the driver returns multiply back to `n`. */
  lemma DriveProduct(n: int, isPrime: int -> bool, split: int -> Option<Positive>, stopOnOne: bool, fuel: nat)
    requires n >= 1 && Splits(split) && (stopOnOne ==> SplitsProperly(split))
    ensures var r := Drive(n, isPrime, split, stopOnOne, fuel);
      r.Factors? ==> Product(r.factors) == n
  {
    var (s, odd) := TwoAdic(n);
    OddPartBound(n);
    RunProduct([odd], Repeat(2, s), isPrime, split, stopOnOne, fuel);
    ProductRepeat(2, s);
    Pow2IsPow(s);
    assert Product([odd]) == odd;
  }

  /** Each factor is a stripped 2 or a number the primality oracle accepted. */
  lemma DriveVerdicts(n: int, isPrime: int -> bool, split: int -> Option<Positive>, stopOnOne: bool, fuel: nat)
    requires n >= 1
    ensures var r := Drive(n, isPrime, split, stopOnOne, fuel);
      r.Factors? ==> forall i :: 0 <= i < |r.factors| ==> r.factors[i] == 2 || isPrime(r.factors[i])
  {
    var (s, odd) := TwoAdic(n);
    var r := Drive(n, isPrime, split, stopOnOne, fuel);
    RunAppendsPrimes([odd], Repeat(2, s), isPrime, split, stopOnOne, fuel);
    if r.Factors? {
      forall i | 0 <= i < |r.factors|
        ensures r.factors[i] == 2 || isPrime(r.factors[i])
      {
        if i < s {
          assert r.factors[i] == r.factors[..s][i];
        }
      }
    }
  }

  /** With proper splits and `2 * n` pops, the driver never runs out of fuel. */
  lemma DriveFinishes(n: int, isPrime: int -> bool, split: int -> Option<Positive>, stopOnOne: bool, fuel: nat)
    requires n >= 1 && Splits(split) && SplitsProperly(split) && fuel >= 2 * n
    ensures Drive(n, isPrime, split, stopOnOne, fuel) != OutOfFuel
  {
    var (s, odd) := TwoAdic(n);
    OddPartBound(n);
    RunTerminates([odd], Repeat(2, s), isPrime, split, stopOnOne, fuel);
  }

  /** The driver gives up only on a divisor of `n` above 1 that the oracle rejects and the
      splitter cannot cut. */
  lemma DriveUnsplit(n: int, isPrime: int -> bool, split: int -> Option<Positive>, stopOnOne: bool, fuel: nat)
    requires n >= 1 && Splits(split)
    ensures var r := Drive(n, isPrime, split, stopOnOne, fuel);
      r.Unsplit? ==> r.number >= 2 && Divides(r.number, n) && !isPrime(r.number) && split(r.number) == None
  {
    var (s, odd) := TwoAdic(n);
    OddPartBound(n);
    assert Divides(odd, n) by { DividesIntro(odd, n, Pow2(s)); }
    RunUnsplit([odd], Repeat(2, s), isPrime, split, stopOnOne, fuel);
    RunUnsplitDivides([odd], Repeat(2, s), isPrime, split, stopOnOne, fuel, n);
  }

  /** A prime that the oracle accepts comes back alone; 2 needs no oracle. */
  lemma DrivePrime(p: int, isPrime: int -> bool, split: int -> Option<Positive>, stopOnOne: bool, fuel: nat)
    requires IsPrime(p) && (p != 2 ==> isPrime(p)) && fuel >= 1
    ensures Drive(p, isPrime, split, stopOnOne, fuel) == Factors([p])
  {
    if p == 2 {
      TwoAdicUnique(2, 1, 1);
      assert Repeat(2, 1) == [2];
      RunPopOne([1], [2], isPrime, split, stopOnOne, fuel);
    } else {
      assert p % 2 == 1;
      TwoAdicUnique(p, 0, p);
      RunPopPrime([p], [], isPrime, split, stopOnOne, fuel);
      assert [p][1..] == [];
    }
  }

  /** A power of two is all twos: the 1 left after stripping adds nothing. */
  lemma DrivePowerOfTwo(s: nat, isPrime: int -> bool, split: int -> Option<Positive>, stopOnOne: bool, fuel: nat)
    requires fuel >= 1
    ensures Drive(Pow2(s), isPrime, split, stopOnOne, fuel) == Factors(Repeat(2, s))
  {
    TwoAdicPowerOfTwo(s);
    DriveParts(Pow2(s), s, 1, isPrime, split, stopOnOne, fuel);
    RunOnlyOne(Repeat(2, s), isPrime, split, stopOnOne, fuel);
  }

  lemma TwoAdicPowerOfTwo(s: nat)
    ensures TwoAdic(Pow2(s)) == (s, 1)
  {
    var m := Pow2(s);
    assert m * 1 == m;
    TwoAdicUnique(m, s, 1);
  }

  lemma DriveParts(n: int, s: nat, odd: int, isPrime: int -> bool, split: int -> Option<Positive>,
                   stopOnOne: bool, fuel: nat)
    requires n >= 1 && TwoAdic(n) == (s, odd)
    ensures Drive(n, isPrime, split, stopOnOne, fuel) == Run([odd], Repeat(2, s), isPrime, split, stopOnOne, fuel)
  {
  }

  /** A queue holding just a 1 leaves the factors as they are. */
  lemma RunOnlyOne(factors: seq<int>, isPrime: int -> bool, split: int -> Option<Positive>, stopOnOne: bool,
                   fuel: nat)
    requires fuel >= 1
    ensures Run([1], factors, isPrime, split, stopOnOne, fuel) == Factors(factors)
  {
    RunPopOne([1], factors, isPrime, split, stopOnOne, fuel);
    assert [1][1..] == [];
  }
}
