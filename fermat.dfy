/**
 * Fermat's difference-of-squares splitter and the driver built on it
 * (src/algorithms/fermat.rs).
 *
 * To split an odd `m`, the driver looks for the least `a`, starting from `ceiling_root(m)`,
 * at which `b = a^2 - m` is a perfect square; then `m = (a - sqrt(b)) * (a + sqrt(b))`. One
 * such `a` always exists for odd `m`: `(m + 1) / 2`, where the split is the trivial `1 * m`.
 *
 * `ceiling_root` does not return the ceiling of the square root: it returns the floor root of a
 * non-square and one past the root of a square. For the square of a prime, the search then
 * skips `a = p` and lands on the trivial split, and the driver requeues the same number
 * forever (`NineStalls`). The corrected splitter starts from the true ceiling root
 * (`CeilRoot`) and splits every odd composite properly (`FixedFactorProper`).
 */
module Fermat {
  import opened Arith
  import opened Options
  import opened Primality
  import opened Worklist

  /** `Fermat::ceiling_root` (src/algorithms/fermat.rs:9-17): one past the root of a square,
      the floor root of anything else. */
  function CeilingRoot(n: nat): (a: nat)
    ensures IsSquare(n) ==> a >= 1 && (a - 1) * (a - 1) == n
    ensures !IsSquare(n) ==> a * a < n < (a + 1) * (a + 1)
  {
    var root := Isqrt(n);
    if root * root == n then root + 1 else root
  }

  /** The true ceiling of the square root: the least `a` with `a^2 >= n`. */
  function CeilRoot(n: nat): (a: nat)
    ensures a * a >= n && (a == 0 || (a - 1) * (a - 1) < n)
  {
    var root := Isqrt(n);
    if root * root == n then root else root + 1
  }

  /** `ceiling_root` is never the ceiling root of a positive number: it is one too many on a
      square and one too few on anything else. */
  lemma CeilingRootOffByOne(n: nat)
    requires n >= 1
    ensures CeilingRoot(n) == if IsSquare(n) then CeilRoot(n) + 1 else CeilRoot(n) - 1
  {
  }

  /** The buffer `b` of the search: `a^2 - m`. */
  function Excess(a: int, m: int): int {
    a * a - m
  }

  /** No `x` in `[lo, hi)` makes `x^2 - m` a perfect square. */
  ghost predicate Misses(m: int, lo: int, hi: int) {
    forall x :: lo <= x < hi ==> !IsSquare(Excess(x, m))
  }

  /** At `(m + 1) / 2` the excess of an odd `m` is the square of `(m - 1) / 2`. */
  lemma HalfIsHit(m: int)
    requires m >= 1 && m % 2 == 1
    ensures IsSquare(Excess((m + 1) / 2, m)) && Isqrt(Excess((m + 1) / 2, m)) == (m - 1) / 2
  {
    var h := (m + 1) / 2;
    assert m == 2 * h - 1;
    SquareBelow(h);
    assert Excess(h, m) == (h - 1) * (h - 1);
    SquareIsSquare(h - 1);
  }

  lemma SquareBelow(x: int)
    ensures (x - 1) * (x - 1) == x * x - 2 * x + 1
  {
  }

  /** The least `a' >= a` at which `a'^2 - m` is a perfect square. */
  function FirstSquareFrom(m: int, a: int): (a': int)
    requires m >= 1 && m % 2 == 1 && 0 <= a <= (m + 1) / 2
    ensures a <= a' <= (m + 1) / 2 && IsSquare(Excess(a', m)) && Misses(m, a, a')
    decreases (m + 1) / 2 - a
  {
    if IsSquare(Excess(a, m)) then a
    else
      HalfIsHit(m);
      FirstSquareFrom(m, a + 1)
  }

  /** A hit `a` splits `m` as `(a - b) * (a + b)` with `b = sqrt(a^2 - m)`. */
  lemma SquareDifference(m: int, a: int)
    requires m >= 1 && a >= 0 && IsSquare(Excess(a, m))
    ensures var b := Isqrt(Excess(a, m));
      (a - b) * (a + b) == m && a - b >= 1 && Divides(a - b, m) && m / (a - b) == a + b
  {
    SquareDifferenceOf(m, a, Isqrt(Excess(a, m)));
  }

  /** `m == a^2 - b^2` splits as `(a - b) * (a + b)`, with a positive first factor. */
  lemma SquareDifferenceOf(m: int, a: int, b: int)
    requires m >= 1 && a >= 0 && b >= 0 && b * b == a * a - m
    ensures (a - b) * (a + b) == m && a - b >= 1 && Divides(a - b, m) && m / (a - b) == a + b
  {
    MiddleSquare(a, b);
    if a <= b {
      SquareMonotone(a, b);
      assert false;
    }
    DividesIntro(a - b, m, a + b);
    DivModUnique(m, a - b, a + b, 0);
  }

  /** The search starts inside the range where a hit is certain: both roots of `m` lie at or
      below `(m + 1) / 2`. */
  lemma StartInRange(m: int)
    requires m >= 3 && m % 2 == 1
    ensures CeilingRoot(m) <= (m + 1) / 2 && CeilRoot(m) <= (m + 1) / 2
  {
    var h := (m + 1) / 2;
    HalfIsHit(m);
    assert h * h > m by {
      assert Excess(h, m) == (h - 1) * (h - 1);
      MulAtLeast(h - 1, h - 1);
    }
    var r := Isqrt(m);
    if r >= h {
      SquareMonotone(h, r);
      assert false;
    }
  }

  /** The factor the `a += 1` search of `Fermat::factor` finds for an odd `m >= 3`
      (src/algorithms/fermat.rs:42-48). */
  function FermatFactor(m: int): (f: int)
    requires m >= 3 && m % 2 == 1
    ensures 1 <= f <= (m + 1) / 2 && Divides(f, m) && f * (m / f) == m
  {
    StartInRange(m);
    HitFactor(m, FirstSquareFrom(m, CeilingRoot(m)))
  }

  /** The factor `a - sqrt(a^2 - m)` that a hit `a` gives. */
  function HitFactor(m: int, a: int): (f: int)
    requires m >= 3 && 0 <= a <= (m + 1) / 2 && IsSquare(Excess(a, m))
    ensures 1 <= f <= (m + 1) / 2 && Divides(f, m) && f * (m / f) == m
  {
    SquareDifference(m, a);
    a - Isqrt(Excess(a, m))
  }

  /** The split `(a - b) * (a + b) == m` is trivial exactly at `a = (m + 1) / 2`. */
  lemma TrivialOnlyAtHalf(m: int, a: int)
    requires m >= 3 && a >= 0 && IsSquare(Excess(a, m)) && a - Isqrt(Excess(a, m)) == 1
    ensures 2 * a == m + 1
  {
    SquareDifference(m, a);
  }

  /** A factorization `d * e` of odd `m` with `1 < d <= e` puts a hit at `(d + e) / 2`, strictly
      below `(m + 1) / 2`, and `((d + e) / 2)^2 >= m`, with equality only when `d == e`. */
  lemma MiddleHit(m: int, d: int, e: int)
    requires m % 2 == 1 && 1 < d <= e && d * e == m
    ensures (d + e) % 2 == 0 && IsSquare(Excess((d + e) / 2, m))
    ensures (d + e) / 2 < (m + 1) / 2 && m >= 3
    ensures ((d + e) / 2) * ((d + e) / 2) >= m
    ensures d < e ==> ((d + e) / 2) * ((d + e) / 2) > m
  {
    OddFactors(m, d, e);
    var h, k := (d + e) / 2, (e - d) / 2;
    assert d + e == 2 * h && e - d == 2 * k;
    MiddleHitAt(m, d, e, h, k);
  }

  /** `MiddleHit` with the midpoint `h` and the half-distance `k` of the two factors. */
  lemma MiddleHitAt(m: int, d: int, e: int, h: int, k: int)
    requires 1 < d <= e && d * e == m && d == h - k && e == h + k
    ensures IsSquare(Excess(h, m)) && 2 * h <= m && m >= 3 && h * h >= m && (d < e ==> h * h > m)
  {
    MiddleSquare(h, k);
    SquareIsSquare(k);
    NonNegMul(k, k);
    SumAtMostProduct(d, e);
    if d < e {
      MulAtLeast(k, k);
    }
  }

  lemma SumAtMostProduct(d: int, e: int)
    requires 1 < d <= e
    ensures d + e <= d * e
  {
    ShiftedProduct(d, e);
    NonNegMul(d - 1, e - 1);
    MulAtLeast(d - 1, e - 1);
  }

  lemma MiddleSquare(h: int, k: int)
    ensures (h - k) * (h + k) == h * h - k * k
  {
  }

  lemma ShiftedProduct(d: int, e: int)
    ensures (d - 1) * (e - 1) == d * e - d - e + 1
  {
  }

  /** Both factors of an odd number are odd. */
  lemma OddFactors(m: int, d: int, e: int)
    requires m % 2 == 1 && d * e == m
    ensures d % 2 == 1 && e % 2 == 1
  {
    DividesIntro(d, m, e);
    DividesIntro(e, m, d);
    OddDivisor(d, m);
    OddDivisor(e, m);
  }

  /** As written, the search splits properly every odd `m` that has a factorization `d * e`
      with `1 < d < e`; what it misses is exactly `d == e`. */
  lemma FermatFactorProper(m: int, d: int, e: int)
    requires m % 2 == 1 && 1 < d < e && d * e == m
    ensures m >= 3 && 1 < FermatFactor(m) < m
  {
    MiddleHit(m, d, e);
    var h := (d + e) / 2;
    StartInRange(m);
    var a0 := CeilingRoot(m);
    var r := Isqrt(m);
    assert r < h by {
      if r >= h {
        SquareMonotone(h, r);
      }
    }
    assert a0 <= h;
    var a := FirstSquareFrom(m, a0);
    assert a <= h;
    SquareDifference(m, a);
    if a - Isqrt(Excess(a, m)) == 1 {
      TrivialOnlyAtHalf(m, a);
    }
  }

  /** As written, the square of an odd prime splits into 1 and itself: the search starts past
      the root and the only other split is the trivial one. */
  lemma PrimeSquareSplitsTrivially(p: int)
    requires IsPrime(p) && p % 2 == 1
    ensures p * p >= 3 && (p * p) % 2 == 1 && FermatFactor(p * p) == 1
  {
    OddSquare(p);
    PrimeSquareSearch(p, p * p);
  }

  lemma OddSquare(p: int)
    requires p >= 3 && p % 2 == 1
    ensures p * p >= 3 && (p * p) % 2 == 1
  {
    MulAtLeast(p, p);
    NonNegMul(p, p);
    ModMul(p, p, 2);
  }

  /** The search for `m == p^2` starts at `p + 1` and ends on the trivial split. */
  lemma PrimeSquareSearch(p: int, m: int)
    requires IsPrime(p) && m == p * p && m >= 3 && m % 2 == 1
    ensures FermatFactor(m) == 1
  {
    SquareIsSquare(p);
    assert CeilingRoot(m) == p + 1;
    StartInRange(m);
    var a := FirstSquareFrom(m, p + 1);
    var b := Isqrt(Excess(a, m));
    SquareDifference(m, a);
    AboveRoot(p, a);
    PositiveRoot(Excess(a, m), b);
    SmallDivisorOfPrimeSquare(p, a - b, a + b);
  }

  lemma AboveRoot(p: nat, a: int)
    requires a >= p + 1
    ensures a * a > p * p
  {
    SquareMonotone(p + 1, a);
    SquareBelow(p + 1);
  }

  lemma PositiveRoot(x: int, b: nat)
    requires x > 0 && b * b == x
    ensures b >= 1
  {
  }

  lemma Cancel(p: int, x: int, y: int)
    requires p != 0 && p * x == p * y
    ensures x == y
  {
    assert p * (x - y) == 0;
  }

  /** The only factorization `f * g` of `p^2` with `f < g` is `1 * p^2`. */
  lemma SmallDivisorOfPrimeSquare(p: int, f: int, g: int)
    requires IsPrime(p) && 1 <= f < g && f * g == p * p
    ensures f == 1
  {
    DividesIntro(p, f * g, p);
    if Divides(p, f) {
      PrimeSquareFactor(p, g, f);
      Cancel(p, f, p);
      assert false;
    } else {
      Residues.Euclid(p, f, g);
      PrimeSquareFactor(p, f, g);
      if f == p {
        Cancel(p, g, p);
        assert false;
      }
    }
  }

  /** A factor `x` of `p^2 == x * y` whose cofactor `y` is a multiple of `p` is 1 or `p`. */
  lemma PrimeSquareFactor(p: int, x: int, y: int)
    requires IsPrime(p) && x >= 1 && x * y == p * p && Divides(p, y)
    ensures x == 1 || x == p
  {
    var k := DividesElim(p, y);
    MulAssoc(x, k, p);
    Cancel(p, x * k, p);
    DividesIntro(x, p, k);
    Residues.PrimeDivisor(p, x);
  }

  /** The `a += 1` search of `Fermat::factor` (src/algorithms/fermat.rs:42-54): the buffer
      `b = a^2 - number` is tested and `a` grows by one per miss; a negative `b` is no
      square. It finishes for every odd `number >= 3`, at the latest at `(number + 1) / 2`. */
  method Search(number: int) returns (factor: int, twin: int)
    requires number >= 3 && number % 2 == 1
    ensures factor == FermatFactor(number) && twin == number / factor
    ensures factor >= 1 && factor * twin == number
  {
    StartInRange(number);
    HalfIsHit(number);
    var a := CeilingRoot(number);
    var b := a * a - number;
    while !IsSquare(b)
      invariant CeilingRoot(number) <= a <= (number + 1) / 2 && b == Excess(a, number)
      invariant FirstSquareFrom(number, a) == FirstSquareFrom(number, CeilingRoot(number))
      decreases (number + 1) / 2 - a
    {
      a := a + 1;
      b := a * a - number;
    }
    factor := a - Isqrt(b);
    twin := number / factor;
  }

  /** The splitter of the as-written driver; the driver only ever hands it odd numbers
      above 1. */
  function FermatSplitter(): int -> Option<Positive> {
    m => if m >= 3 && m % 2 == 1 then Some(FermatFactor(m)) else None
  }

  lemma FermatSplitterSplits()
    ensures Splits(FermatSplitter())
  {
    forall m | m >= 1 && FermatSplitter()(m).Some?
      ensures Divides(FermatSplitter()(m).value, m)
    {
      assert FermatSplitter()(m) == Some(FermatFactor(m));
    }
  }

  /** What `Fermat::factor(n)` does within `fuel` pops, for a positive `n`. */
  ghost function FermatSpec(n: int, draw: RandomSource, fuel: nat): Outcome
    requires n >= 1
  {
    Drive(n, PassesTest(draw), FermatSplitter(), false, fuel)
  }

  ghost predicate AllOdd(queue: seq<int>) {
    forall i :: 0 <= i < |queue| ==> queue[i] >= 1 && queue[i] % 2 == 1
  }

  /** A divisor of an odd number is odd. */
  lemma OddDivisor(d: int, m: int)
    requires m % 2 == 1 && Divides(d, m)
    ensures d % 2 == 1
  {
    if d % 2 == 0 {
      DividesIntro(2, d, d / 2);
      DividesTrans(2, d, m);
    }
  }

  /** `Fermat::factor` (src/algorithms/fermat.rs:21-59), stopped after `fuel` pops: the loop
      of the source has no bound and does not end on the square of a prime. */
  method Factor(n: int, draw: RandomSource, fuel: nat) returns (outcome: Outcome)
    requires n >= 1
    ensures outcome == FermatSpec(n, draw, fuel)
  {
    var factors, odd := StripTwos(n);
    FermatSplitterSplits();
    outcome := Drain([odd], factors, draw, PassesTest(draw), FermatSplitter(), fuel);
  }

  /** The `'factorize` loop of `Fermat::factor` (src/algorithms/fermat.rs:32-56), on a queue
      of odd numbers and for at most `fuel` pops. */
  method Drain(start: seq<int>, found: seq<int>, draw: RandomSource, ghost isPrime: int -> bool,
               ghost split: int -> Option<Positive>, fuel: nat) returns (outcome: Outcome)
    requires Tests(isPrime, draw) && SearchSplits(split) && AllOdd(start)
    ensures outcome == Run(start, found, isPrime, split, false, fuel)
  {
    var queue, factors, left := start, found, fuel;
    while queue != []
      invariant AllOdd(queue)
      invariant Run(queue, factors, isPrime, split, false, left) == Run(start, found, isPrime, split, false, fuel)
      decreases left
    {
      var done;
      TestsAt(isPrime, draw, split, queue[0]);
      done, queue, factors, left := Step(queue, factors, draw, isPrime, split, left);
      if done.Some? {
        return done.value;
      }
    }
    RunStops(queue, factors, isPrime, split, false, left);
    return Factors(factors);
  }

  /** One turn of the `'factorize` loop with `left` pops to go: stop when none is left, or
      pop. */
  method Step(queue: seq<int>, factors: seq<int>, draw: RandomSource, ghost isPrime: int -> bool,
              ghost split: int -> Option<Positive>, left: nat)
    returns (done: Option<Outcome>, queue': seq<int>, factors': seq<int>, left': nat)
    requires queue != [] && AllOdd(queue)
    requires isPrime(queue[0]) == (MillerRabinSpec(queue[0], 40, draw) == ProbablyPrime)
    requires queue[0] >= 3 ==> split(queue[0]) == Some(FermatFactor(queue[0]))
    ensures done.Some? ==> done.value == Run(queue, factors, isPrime, split, false, left)
    ensures done.None? ==> (AllOdd(queue') && left' < left &&
      Run(queue', factors', isPrime, split, false, left') == Run(queue, factors, isPrime, split, false, left))
  {
    if left == 0 {
      RunStops(queue, factors, isPrime, split, false, left);
      return Some(OutOfFuel), queue, factors, left;
    }
    queue', factors' := Pop(queue, factors, draw, isPrime, split, left);
    return None, queue', factors', left - 1;
  }

  /** `isPrime` is the verdict of `miller_rabin(_, 40)` with the witnesses `draw`. */
  ghost predicate Tests(isPrime: int -> bool, draw: RandomSource) {
    forall m :: isPrime(m) == (MillerRabinSpec(m, 40, draw) == ProbablyPrime)
  }

  /** `split` is the search on odd numbers above 1. */
  ghost predicate SearchSplits(split: int -> Option<Positive>) {
    forall m :: m >= 3 && m % 2 == 1 ==> split(m) == Some(FermatFactor(m))
  }

  lemma TestsAt(isPrime: int -> bool, draw: RandomSource, split: int -> Option<Positive>, m: int)
    requires Tests(isPrime, draw) && SearchSplits(split)
    ensures isPrime(m) == (MillerRabinSpec(m, 40, draw) == ProbablyPrime)
    ensures m >= 3 && m % 2 == 1 ==> split(m) == Some(FermatFactor(m))
  {
  }

  /** One pass of the `'factorize` loop: skip a 1, keep a probable prime, or push the two
      parts the search finds. */
  method Pop(queue: seq<int>, factors: seq<int>, draw: RandomSource, ghost isPrime: int -> bool,
             ghost split: int -> Option<Positive>, ghost fuel: nat)
    returns (queue': seq<int>, factors': seq<int>)
    requires queue != [] && fuel >= 1 && AllOdd(queue)
    requires isPrime(queue[0]) == (MillerRabinSpec(queue[0], 40, draw) == ProbablyPrime)
    requires queue[0] >= 3 ==> split(queue[0]) == Some(FermatFactor(queue[0]))
    ensures AllOdd(queue')
    ensures Run(queue', factors', isPrime, split, false, fuel - 1) == Run(queue, factors, isPrime, split, false, fuel)
  {
    var number := queue[0];
    queue', factors' := queue[1..], factors;
    if number == 1 {
      RunPopOne(queue, factors, isPrime, split, false, fuel);
      return;
    }
    var verdict := MillerRabin(number, 40, draw);
    if verdict == ProbablyPrime {
      factors' := factors + [number];
      PopPrime(queue, factors, isPrime, split, false, fuel, queue', factors', fuel - 1);
      return;
    }
    var factor, twin := Search(number);
    PopSplit(queue, factors, isPrime, split, fuel, factor, twin);
    queue' := queue' + [factor, twin];
  }

  /** Pushing the two parts the search finds keeps the queue odd and the driver's result. */
  lemma PopSplit(queue: seq<int>, factors: seq<int>, isPrime: int -> bool, split: int -> Option<Positive>,
                 fuel: nat, f: int, twin: int)
    requires queue != [] && fuel >= 1 && AllOdd(queue) && queue[0] != 1 && !isPrime(queue[0])
    requires f >= 1 && split(queue[0]) == Some(f) && twin == queue[0] / f && f * twin == queue[0]
    ensures var next := queue[1..] + [f, twin];
      AllOdd(next) && Run(next, factors, isPrime, split, false, fuel - 1) == Run(queue, factors, isPrime, split, false, fuel)
  {
    var m := queue[0];
    RunPopSplit(queue, factors, isPrime, split, false, fuel, f);
    DividesIntro(f, m, twin);
    DividesIntro(twin, m, f);
    DivisorBounds(twin, m);
    OddDivisor(f, m);
    OddDivisor(twin, m);
  }

  // ---------------------------------------------------------------------------------------
  // What the as-written driver promises

  lemma FermatProduct(n: int, draw: RandomSource, fuel: nat)
    requires n >= 1
    ensures var r := FermatSpec(n, draw, fuel);
      r.Factors? ==> Product(r.factors) == n
  {
    FermatSplitterSplits();
    DriveProduct(n, PassesTest(draw), FermatSplitter(), false, fuel);
  }

  /** Every factor is a stripped 2 or a number `miller_rabin(_, 40)` calls a probable
      prime. */
  lemma FermatVerdicts(n: int, draw: RandomSource, fuel: nat)
    requires n >= 1
    ensures var r := FermatSpec(n, draw, fuel);
      r.Factors? ==> forall i :: 0 <= i < |r.factors| ==>
        r.factors[i] >= 2 && (r.factors[i] == 2 || MillerRabinSpec(r.factors[i], 40, draw) == ProbablyPrime)
  {
    var r := FermatSpec(n, draw, fuel);
    DriveVerdicts(n, PassesTest(draw), FermatSplitter(), false, fuel);
    if r.Factors? {
      forall i | 0 <= i < |r.factors|
        ensures r.factors[i] >= 2
      {
        if r.factors[i] != 2 {
          assert PassesTest(draw)(r.factors[i]);
        }
      }
    }
  }

  /** The number the driver gives up on divides the odd part of `n`, so it is odd. */
  lemma UnsplitIsOdd(n: int, isPrime: int -> bool, split: int -> Option<Positive>, fuel: nat)
    requires n >= 1 && Splits(split)
    ensures var r := Drive(n, isPrime, split, false, fuel);
      r.Unsplit? ==> r.number >= 3 && r.number % 2 == 1 && !isPrime(r.number) && split(r.number) == None
  {
    var (s, odd) := TwoAdic(n);
    assert Divides(odd, odd) by { DividesIntro(odd, odd, 1); }
    RunUnsplitDivides([odd], Repeat(2, s), isPrime, split, false, fuel, odd);
    RunUnsplit([odd], Repeat(2, s), isPrime, split, false, fuel);
    var r := Drive(n, isPrime, split, false, fuel);
    if r.Unsplit? {
      OddDivisor(r.number, odd);
    }
  }

  /** The as-written driver never gives up on a number: the search always finds some split. It
      can only return factors or run out of pops. */
  lemma FermatNeverUnsplit(n: int, draw: RandomSource, fuel: nat)
    requires n >= 1
    ensures !FermatSpec(n, draw, fuel).Unsplit?
  {
    FermatSplitterSplits();
    UnsplitIsOdd(n, PassesTest(draw), FermatSplitter(), fuel);
  }

  /** A prime comes back alone. */
  lemma FermatPrime(p: int, draw: RandomSource, fuel: nat)
    requires IsPrime(p) && fuel >= 1
    ensures FermatSpec(p, draw, fuel) == Factors([p])
  {
    MillerRabinSound(p, 40, draw);
    DrivePrime(p, PassesTest(draw), FermatSplitter(), false, fuel);
  }

  /** The Miller-Rabin test finds 9 composite whatever its witnesses: no witness in `[2, 7]`
      passes a round. */
  lemma NineComposite(draw: RandomSource)
    ensures MillerRabinSpec(9, 40, draw) == Composite
  {
    NineRound(Witness(9, draw, 0));
  }

  lemma NineRound(a: int)
    requires 2 <= a <= 7
    ensures !RoundPasses(9, a)
  {
    TwoAdicUnique(8, 3, 1);
    assert Pow2(1) == 2 && Pow2(2) == 4;
    assert Pow(a, 1) == a;
    PowTwo(a);
    PowAdd(a, 2, 2);
    var sq := a * a;
    assert Squared(a, 1, 1, 9) == sq % 9;
    assert Squared(a, 1, 2, 9) == (sq * sq) % 9;
    assert sq % 9 != 8 && (sq * sq) % 9 != 8 by {
      assert a == 2 || a == 3 || a == 4 || a == 5 || a == 6 || a == 7;
    }
    forall i | 1 <= i < 3
      ensures Squared(a, 1, i, 9) != 8
    {
      assert i == 1 || i == 2;
    }
  }

  /** As written, the driver requeues the square of an odd prime forever once the Miller-Rabin
      test has called it composite: the split is `1 * p^2`, the 1 is skipped and `p^2` comes
      back. */
  lemma PrimeSquareStalls(p: int, draw: RandomSource, fuel: nat)
    requires IsPrime(p) && p % 2 == 1 && MillerRabinSpec(p * p, 40, draw) == Composite
    ensures p * p >= 1 && FermatSpec(p * p, draw, fuel) == OutOfFuel
  {
    PrimeSquareSplitsTrivially(p);
    var m := p * p;
    TwoAdicUnique(m, 0, m);
    assert Repeat(2, 0) == [];
    PrimeSquareLoops(m, draw, fuel);
  }

  lemma {:induction false} PrimeSquareLoops(m: int, draw: RandomSource, fuel: nat)
    requires m >= 3 && m % 2 == 1 && FermatFactor(m) == 1 && MillerRabinSpec(m, 40, draw) == Composite
    ensures Run([m], [], PassesTest(draw), FermatSplitter(), false, fuel) == OutOfFuel
    decreases fuel
  {
    if fuel > 0 {
      var isPrime, split := PassesTest(draw), FermatSplitter();
      assert split(m) == Some(1);
      RunPopSplit([m], [], isPrime, split, false, fuel, 1);
      assert [m][1..] + [1, m / 1] == [1, m];
      if fuel > 1 {
        RunPopOne([1, m], [], isPrime, split, false, fuel - 1);
        assert [1, m][1..] == [m];
        PrimeSquareLoops(m, draw, fuel - 2);
      }
    }
  }

  /** `Fermat::factor(9)` never returns. */
  lemma NineStalls(draw: RandomSource, fuel: nat)
    ensures FermatSpec(9, draw, fuel) == OutOfFuel
  {
    NineComposite(draw);
    assert IsPrime(3);
    PrimeSquareStalls(3, draw, fuel);
  }

  // ---------------------------------------------------------------------------------------
  // The corrected splitter: the search starts from the true ceiling root

  /** The search started from `CeilRoot(m)` instead of `ceiling_root(m)`. */
  function FixedFactor(m: int): (f: int)
    requires m >= 3 && m % 2 == 1
    ensures 1 <= f <= (m + 1) / 2 && Divides(f, m) && f * (m / f) == m
  {
    StartInRange(m);
    HitFactor(m, FirstSquareFrom(m, CeilRoot(m)))
  }

  /** Started from the true ceiling root, the search splits properly every odd `m` with a
      factorization `d * e`, `1 < d <= e`, squares of primes included. */
  lemma FixedFactorProper(m: int, d: int, e: int)
    requires m % 2 == 1 && 1 < d <= e && d * e == m
    ensures m >= 3 && 1 < FixedFactor(m) < m
  {
    MiddleHit(m, d, e);
    var h := (d + e) / 2;
    StartInRange(m);
    var c := CeilRoot(m);
    assert c <= h by {
      if c > h {
        SquareMonotone(h, c - 1);
      }
    }
    var a := FirstSquareFrom(m, c);
    assert a <= h;
    SquareDifference(m, a);
    if a - Isqrt(Excess(a, m)) == 1 {
      TrivialOnlyAtHalf(m, a);
    }
  }

  /** Every odd composite is split properly. */
  lemma CompositeSplits(m: int)
    requires m >= 3 && m % 2 == 1 && !IsPrime(m)
    ensures 1 < FixedFactor(m) < m
  {
    var d :| 2 <= d < m && m % d == 0;
    var e := m / d;
    assert m == d * e;
    if d <= e {
      FixedFactorProper(m, d, e);
    } else {
      FixedFactorProper(m, e, d);
    }
  }

  /** The corrected splitter declines only the trivial split, which no composite yields. */
  function FixedSplitter(): int -> Option<Positive> {
    m => if m >= 3 && m % 2 == 1 && FixedFactor(m) > 1 then Some(FixedFactor(m)) else None
  }

  lemma FixedSplitterProper()
    ensures Splits(FixedSplitter()) && SplitsProperly(FixedSplitter())
  {
    forall m | m >= 1 && FixedSplitter()(m).Some?
      ensures Divides(FixedSplitter()(m).value, m) && 1 < FixedSplitter()(m).value < m
    {
      assert FixedSplitter()(m) == Some(FixedFactor(m));
    }
  }

  /** The corrected driver, with `2 * n` pops. */
  ghost function FixedSpec(n: int, draw: RandomSource): Outcome
    requires n >= 1
  {
    Drive(n, PassesTest(draw), FixedSplitter(), false, 2 * n)
  }

  /** With the corrected splitter the driver always returns, and what it returns is a
      factorization of `n` into twos and probable primes. */
  lemma FixedFinishes(n: int, draw: RandomSource)
    requires n >= 1
    ensures var r := FixedSpec(n, draw);
      r.Factors? && Product(r.factors) == n &&
      forall i :: 0 <= i < |r.factors| ==> r.factors[i] == 2 || MillerRabinSpec(r.factors[i], 40, draw) == ProbablyPrime
  {
    var isPrime, split := PassesTest(draw), FixedSplitter();
    FixedSplitterProper();
    DriveFinishes(n, isPrime, split, false, 2 * n);
    DriveProduct(n, isPrime, split, false, 2 * n);
    DriveVerdicts(n, isPrime, split, false, 2 * n);
    UnsplitIsOdd(n, isPrime, split, 2 * n);
    var r := FixedSpec(n, draw);
    if r.Unsplit? {
      MillerRabinSound(r.number, 40, draw);
      CompositeSplits(r.number);
    }
    if r.Factors? {
      forall i | 0 <= i < |r.factors|
        ensures r.factors[i] == 2 || MillerRabinSpec(r.factors[i], 40, draw) == ProbablyPrime
      {
        if r.factors[i] != 2 {
          assert isPrime(r.factors[i]);
        }
      }
    }
  }
}
