/**
 * The `BrentsRho` factorizer of src/algorithms/brents_rho.rs: strip the factors of two, then
 * run the worklist, testing each number with Miller-Rabin (40 rounds) and cutting a composite
 * with Pollard's rho iteration `x -> x^2 + offset (mod n)` started from 2, for offsets 1 to 99.
 *
 * `brents_rho_single` walks a slow cursor one step and a fast cursor two steps at a time and
 * stops at the first step where `gcd(|x - y|, n)` is not 1. The model states that step as
 * `FirstExit`, and proves it exists for every `n >= 2` (the two cursors must meet once the
 * sequence cycles modulo `n`), so the loop always ends.
 */
module BrentsRho {
  import opened Arith
  import opened Options
  import opened Gcd
  import opened Residues
  import opened Primality
  import opened Worklist

  /** The closure `g` of `brents_rho_single`: `(x * x + offset) % n`, a value in `[0, n)`
      that differs from `x * x + offset` by a multiple of `n`. */
  function Step(x: int, offset: int, n: int): (y: int)
    requires n >= 1 && offset >= 0
    ensures 0 <= y < n && Divides(n, x * x + offset - y)
  {
    var q := (x * x + offset) / n;
    assert x * x + offset - (x * x + offset) % n == n * q;
    DividesIntro(n, x * x + offset - (x * x + offset) % n, q);
    (x * x + offset) % n
  }

  /** The dividend of `g` is never negative, so rug's truncating remainder and the Euclidean
      one of `Step` agree. */
  lemma StepIsTruncating(x: int, offset: int, n: int)
    requires n >= 1 && offset >= 0
    ensures TRem(x * x + offset, n) == Step(x, offset, n)
  {
    NonNegMul(Abs(x), Abs(x));
    assert x * x == Abs(x) * Abs(x);
  }

  /** The value of a cursor after `k` steps from 2. */
  function Cursor(n: int, offset: int, k: nat): (x: int)
    requires n >= 1 && offset >= 0
    ensures k >= 1 ==> 0 <= x < n
  {
    if k == 0 then 2 else Step(Cursor(n, offset, k - 1), offset, n)
  }

  /** The candidate after `k` rounds of the loop: `gcd(|x_k - x_2k|, n)`. */
  function Probe(n: int, offset: int, k: nat): (g: nat)
    requires n >= 1 && offset >= 0
    ensures 1 <= g <= n && Divides(g, n)
  {
    var g := GcdOf(Abs(Cursor(n, offset, k) - Cursor(n, offset, 2 * k)), n);
    DivisorBounds(g, n);
    g
  }

  /** When the cursors meet, the candidate is `n` itself. */
  lemma ProbeMeet(n: int, offset: int, k: nat)
    requires n >= 1 && offset >= 0 && Cursor(n, offset, k) == Cursor(n, offset, 2 * k)
    ensures Probe(n, offset, k) == n
  {
    GcdZeroLeft(n);
  }

  /** One step more on both sides keeps two equal cursors equal. */
  lemma {:induction false} CursorShift(n: int, offset: int, a: nat, b: nat, t: nat)
    requires n >= 1 && offset >= 0 && Cursor(n, offset, a) == Cursor(n, offset, b)
    ensures Cursor(n, offset, a + t) == Cursor(n, offset, b + t)
    decreases t
  {
    if t > 0 {
      CursorShift(n, offset, a, b, t - 1);
    }
  }

  /** Once the cursor repeats with period `p` from step `a` on, every later value repeats. */
  lemma {:induction false} CursorPeriod(n: int, offset: int, a: nat, p: nat, m: nat, q: nat)
    requires n >= 1 && offset >= 0 && Cursor(n, offset, a) == Cursor(n, offset, a + p) && m >= a
    ensures Cursor(n, offset, m) == Cursor(n, offset, m + q * p)
    decreases q
  {
    if q > 0 {
      var shift := (q - 1) * p;
      PeriodStep(q, p, shift);
      CursorPeriod(n, offset, a, p, m, q - 1);
      CursorShift(n, offset, a, a + p, m - a + shift);
    }
  }

  lemma PeriodStep(q: int, p: nat, shift: int)
    requires q >= 1 && shift == (q - 1) * p
    ensures shift >= 0 && shift + p == q * p
  {
    NonNegMul(q - 1, p);
  }

  /** Pigeonhole: the cursor takes at most `n` values after its first step, so two of its
      first `n + 1` steps agree. */
  lemma CursorRepeats(n: int, offset: int) returns (a: nat, b: nat)
    requires n >= 2 && offset >= 0
    ensures 1 <= a < b <= n + 1 && Cursor(n, offset, a) == Cursor(n, offset, b)
  {
    var s := seq(n + 1, i requires 0 <= i => Cursor(n, offset, i + 1) + 1);
    assert InOneTo(s, n);
    if Distinct(s) {
      DistinctBound(s, n);
      assert false;
    }
    var i, j :| 0 <= i < j < |s| && s[i] == s[j];
    a, b := i + 1, j + 1;
  }

  /** A multiple of `b - a` lies in `(a, b]`. */
  lemma MultipleBetween(a: nat, b: nat) returns (k: nat, q: nat)
    requires a < b
    ensures a < k <= b && k == q * (b - a)
  {
    var p := b - a;
    var rest := b % p;
    q := b / p;
    assert b == q * p + rest && 0 <= rest < p;
    k := b - rest;
  }

  /** Floyd's cycle argument: within `n` steps the slow and the fast cursor hold the same
      value. Two steps `a < b` agree, and the multiple of the period `b - a` found in `[a, b)`
      is the meeting step. */
  lemma CursorsMeet(n: int, offset: int)
    requires n >= 2 && offset >= 0
    ensures exists k: nat :: 1 <= k <= n && Cursor(n, offset, k) == Cursor(n, offset, 2 * k)
  {
    var a, b := CursorRepeats(n, offset);
    var k, q := MultipleBetween(a - 1, b - 1);
    CursorPeriod(n, offset, a, b - a, k, q);
    assert k + q * (b - a) == 2 * k;
  }

  /** Some round of the loop leaves 1 within the first `n` rounds. */
  lemma ProbeExits(n: int, offset: int)
    requires n >= 2 && offset >= 0
    ensures exists h: nat :: 1 <= h <= n && Probe(n, offset, h) != 1
  {
    CursorsMeet(n, offset);
    var k: nat :| 1 <= k <= n && Cursor(n, offset, k) == Cursor(n, offset, 2 * k);
    ProbeMeet(n, offset, k);
  }

  /** Every round from `k` up to, not including, `j` left the candidate at 1. */
  ghost predicate QuietBetween(n: int, offset: int, k: nat, j: nat)
    requires n >= 1 && offset >= 0
  {
    forall i: nat :: k <= i < j ==> Probe(n, offset, i) == 1
  }

  /** The first round from `k` on whose candidate is not 1. */
  function FirstExit(n: int, offset: int, k: nat): (j: nat)
    requires n >= 1 && offset >= 0
    requires exists h: nat :: k <= h <= n && Probe(n, offset, h) != 1
    ensures k <= j <= n && Probe(n, offset, j) != 1
    ensures QuietBetween(n, offset, k, j)
    decreases n - k
  {
    if Probe(n, offset, k) != 1 then k else FirstExit(n, offset, k + 1)
  }

  /** One more round moves the slow cursor one step and the fast cursor two. */
  lemma CursorNext(n: int, offset: int, k: nat)
    requires n >= 1 && offset >= 0
    ensures Cursor(n, offset, k + 1) == Step(Cursor(n, offset, k), offset, n)
    ensures Cursor(n, offset, 2 * (k + 1)) == Step(Step(Cursor(n, offset, 2 * k), offset, n), offset, n)
  {
    assert 2 * (k + 1) - 1 == 2 * k + 1;
  }

  /** What `brents_rho_single(n, offset)` returns: the candidate of the first round that
      leaves 1, unless that candidate is `n` itself (the cursors met), which is the `Err`. */
  function SingleSpec(n: int, offset: int): (r: Option<Positive>)
    requires n >= 2 && offset >= 0
    ensures r.Some? ==> 1 < r.value < n && Divides(r.value, n)
  {
    ProbeExits(n, offset);
    var f := Probe(n, offset, FirstExit(n, offset, 1));
    if f == n then None else Some(f)
  }

  lemma QuietExtend(n: int, offset: int, k: nat)
    requires n >= 1 && offset >= 0 && QuietBetween(n, offset, 1, k) && (k >= 1 ==> Probe(n, offset, k) == 1)
    ensures QuietBetween(n, offset, 1, k + 1)
  {
  }

  /** The candidate of round `k`, computed from the two cursor values. */
  lemma ProbeOf(n: int, offset: int, k: nat, x: int, y: int)
    requires n >= 1 && offset >= 0 && x == Cursor(n, offset, k) && y == Cursor(n, offset, 2 * k)
    ensures Probe(n, offset, k) == GcdOf(Abs(x - y), n)
  {
  }

  /** The single run ends at the first round whose candidate is not 1. */
  lemma SingleSpecAt(n: int, offset: int, k: nat)
    requires n >= 2 && offset >= 0 && 1 <= k <= n && Probe(n, offset, k) != 1
    requires QuietBetween(n, offset, 1, k)
    ensures SingleSpec(n, offset) == if Probe(n, offset, k) == n then None else Some(Probe(n, offset, k))
  {
    ProbeExits(n, offset);
    assert FirstExit(n, offset, 1) == k;
  }

  /** `brents_rho_single` (src/algorithms/brents_rho.rs:9-35). */
  method Single(number: int, offset: int) returns (r: Option<Positive>)
    requires number >= 2 && offset >= 0
    ensures r == SingleSpec(number, offset)
    ensures r.Some? ==> 1 < r.value < number && Divides(r.value, number)
  {
    ProbeExits(number, offset);
    ghost var hit: nat :| 1 <= hit <= number && Probe(number, offset, hit) != 1;
    var xCycle, yCycle, possibleFactor := 2, 2, 1;
    ghost var k: nat := 0;
    while possibleFactor == 1
      invariant k <= hit && (possibleFactor == 1 ==> k < hit)
      invariant xCycle == Cursor(number, offset, k) && yCycle == Cursor(number, offset, 2 * k)
      invariant possibleFactor == if k == 0 then 1 else Probe(number, offset, k)
      invariant QuietBetween(number, offset, 1, k)
      decreases hit - k
    {
      QuietExtend(number, offset, k);
      CursorNext(number, offset, k);
      xCycle := Step(xCycle, offset, number);
      yCycle := Step(Step(yCycle, offset, number), offset, number);
      k := k + 1;
      var absDiff := Abs(xCycle - yCycle);
      possibleFactor := Gcd.Gcd(absDiff, number);
      ProbeOf(number, offset, k, xCycle, yCycle);
    }
    SingleSpecAt(number, offset, k);
    if possibleFactor == number {
      r := None;
    } else {
      r := Some(possibleFactor);
    }
  }

  /** No offset splits a prime: its only divisors are 1 and itself. */
  lemma SinglePrime(p: int, offset: int)
    requires IsPrime(p) && offset >= 0
    ensures SingleSpec(p, offset) == None
  {
    var r := SingleSpec(p, offset);
    if r.Some? {
      PrimeDivisor(p, r.value);
    }
  }

  /** The `for offset in 1..100` loop of the driver: the first offset from `offset` to 99 whose
      single run succeeds. */
  function SplitFrom(n: int, offset: nat): (r: Option<Positive>)
    requires n >= 2
    ensures r.Some? ==> 1 < r.value < n && Divides(r.value, n)
    decreases 100 - offset
  {
    if offset >= 100 then None
    else if SingleSpec(n, offset).Some? then SingleSpec(n, offset)
    else SplitFrom(n, offset + 1)
  }

  /** `SplitFrom` gives up only when every offset fails, and otherwise returns what the first
      successful offset found. */
  lemma {:induction false} SplitFromFirst(n: int, offset: nat)
    requires n >= 2
    ensures var r := SplitFrom(n, offset);
      (r.None? <==> forall o :: offset <= o < 100 ==> SingleSpec(n, o).None?) &&
      (r.Some? ==> exists o :: offset <= o < 100 && SingleSpec(n, o) == r &&
                     forall e :: offset <= e < o ==> SingleSpec(n, e).None?)
    decreases 100 - offset
  {
    SplitFromNone(n, offset);
    if SplitFrom(n, offset).Some? {
      var o := SplitFromSome(n, offset);
    }
  }

  /** Every single run from offset `lo` up to `hi` fails. */
  ghost predicate AllFail(n: int, lo: int, hi: int)
    requires n >= 2 && lo >= 0
  {
    forall o :: lo <= o < hi ==> SingleSpec(n, o).None?
  }

  lemma {:induction false} SplitFromNone(n: int, offset: nat)
    requires n >= 2
    ensures SplitFrom(n, offset).None? <==> AllFail(n, offset, 100)
    decreases 100 - offset
  {
    if offset < 100 {
      SplitFromNone(n, offset + 1);
      AllFailFirst(n, offset, 100);
    }
  }

  lemma {:induction false} SplitFromSome(n: int, offset: nat) returns (o: int)
    requires n >= 2 && SplitFrom(n, offset).Some?
    ensures offset <= o < 100 && SingleSpec(n, o) == SplitFrom(n, offset) && AllFail(n, offset, o)
    decreases 100 - offset
  {
    if SingleSpec(n, offset).Some? {
      o := offset;
    } else {
      o := SplitFromSome(n, offset + 1);
      AllFailFirst(n, offset, o);
    }
  }

  lemma AllFailFirst(n: int, lo: int, hi: int)
    requires n >= 2 && 0 <= lo < hi
    ensures AllFail(n, lo, hi) <==> SingleSpec(n, lo).None? && AllFail(n, lo + 1, hi)
  {
  }

  /** What the `for offset in 1..100` loop of the driver finds: the first of offsets 1 to 99
      that splits `n`. */
  function RhoSplit(n: int): Option<Positive>
    requires n >= 2
  {
    SplitFrom(n, 1)
  }

  /** The `for offset in 1..100` loop of `BrentsRho::factor` (src/algorithms/brents_rho.rs:61-70):
      `brents_rho_single` with offsets 1 to 99 until one succeeds. */
  method TrySplit(number: int) returns (r: Option<Positive>)
    requires number >= 2
    ensures r == SplitFrom(number, 1)
    ensures r.Some? ==> 1 < r.value < number && Divides(r.value, number)
  {
    var offset := 1;
    while offset < 100
      invariant 1 <= offset <= 100 && SplitFrom(number, offset) == SplitFrom(number, 1)
    {
      var attempt := Single(number, offset);
      if attempt.Some? {
        return attempt;
      }
      offset := offset + 1;
    }
    return None;
  }

  /** The splitter the driver hands to the worklist. */
  function RhoSplitter(): int -> Option<Positive> {
    m => if m >= 2 then RhoSplit(m) else None
  }

  lemma RhoSplitterProper()
    ensures Splits(RhoSplitter()) && SplitsProperly(RhoSplitter())
  {
    forall m | m >= 1 && RhoSplitter()(m).Some?
      ensures Divides(RhoSplitter()(m).value, m) && (m >= 2 ==> 1 < RhoSplitter()(m).value < m)
    {
      assert RhoSplitter()(m) == SplitFrom(m, 1);
    }
  }

  /** What `BrentsRho::factor(n)` does, for a positive `n`; `2 * n` pops are more than it
      needs (`FactorFinishes`). */
  ghost function FactorSpec(n: int, draw: RandomSource): Outcome
    requires n >= 1
  {
    Drive(n, PassesTest(draw), RhoSplitter(), true, 2 * n)
  }

  /** `BrentsRho::factor` (src/algorithms/brents_rho.rs:39-74): the twos, then the worklist.
      `Unsplit` is the panic after 99 failed offsets. */
  method Factor(n: int, draw: RandomSource) returns (outcome: Outcome)
    requires n >= 1
    ensures outcome == FactorSpec(n, draw)
  {
    var factors, odd := StripTwos(n);
    OddPartBound(n);
    RhoSplitterProper();
    outcome := Drain([odd], factors, draw, PassesTest(draw), RhoSplitter(), 2 * n);
  }

  /** The `'factorize` loop of `BrentsRho::factor` (src/algorithms/brents_rho.rs:47-73), on a
      queue of positive numbers. `isPrime` and `split` name the oracle and the splitter that
      the loop's calls compute. */
  method Drain(start: seq<int>, found: seq<int>, draw: RandomSource, ghost isPrime: int -> bool,
               ghost split: int -> Option<Positive>, ghost fuel0: nat) returns (outcome: Outcome)
    requires forall m :: isPrime(m) == (MillerRabinSpec(m, 40, draw) == ProbablyPrime)
    requires forall m :: m >= 2 ==> split(m) == SplitFrom(m, 1)
    requires Splits(split) && SplitsProperly(split)
    requires AllPositive(start) && OneAlone(start) && fuel0 >= Potential(start)
    ensures outcome == Run(start, found, isPrime, split, true, fuel0)
  {
    var queue, factors := start, found;
    ghost var fuel: nat := fuel0;
    while queue != []
      invariant AllPositive(queue) && OneAlone(queue) && fuel >= Potential(queue)
      invariant Run(queue, factors, isPrime, split, true, fuel) == Run(start, found, isPrime, split, true, fuel0)
      decreases fuel
    {
      var done;
      done, queue, factors, fuel := Pop(queue, factors, draw, isPrime, split, fuel);
      if done.Some? {
        return done.value;
      }
    }
    return Factors(factors);
  }

  /** One pass of the `'factorize` loop: pop a number and either finish (a popped 1, or the
      panic), push it as a factor, or push its two parts. */
  method Pop(queue: seq<int>, factors: seq<int>, draw: RandomSource, ghost isPrime: int -> bool,
             ghost split: int -> Option<Positive>, ghost fuel: nat)
    returns (done: Option<Outcome>, queue': seq<int>, factors': seq<int>, ghost fuel': nat)
    requires queue != [] && isPrime(queue[0]) == (MillerRabinSpec(queue[0], 40, draw) == ProbablyPrime)
    requires queue[0] >= 2 ==> split(queue[0]) == SplitFrom(queue[0], 1)
    requires Splits(split) && SplitsProperly(split)
    requires AllPositive(queue) && OneAlone(queue) && fuel >= Potential(queue)
    ensures fuel' < fuel
    ensures done.Some? ==> done.value == Run(queue, factors, isPrime, split, true, fuel)
    ensures done.None? ==> AllPositive(queue') && OneAlone(queue') && fuel' >= Potential(queue')
    ensures done.None? ==> Run(queue', factors', isPrime, split, true, fuel') == Run(queue, factors, isPrime, split, true, fuel)
  {
    PopRest(queue, fuel);
    var number := queue[0];
    queue', factors', fuel' := queue[1..], factors, fuel - 1;
    if number == 1 {
      RunPopOne(queue, factors, isPrime, split, true, fuel);
      return Some(Factors(factors)), queue', factors', fuel';
    }
    var verdict := MillerRabin(number, 40, draw);
    if verdict == ProbablyPrime {
      factors' := factors + [number];
      PopPrime(queue, factors, isPrime, split, true, fuel, queue', factors', fuel');
      return None, queue', factors', fuel';
    }
    var attempt := TrySplit(number);
    if attempt.Some? {
      var factor := attempt.value;
      var twin := number / factor;
      PopSplit(queue, factors, isPrime, split, fuel, factor, twin);
      queue' := queue' + [factor, twin];
      return None, queue', factors', fuel';
    }
    RunPopUnsplit(queue, factors, isPrime, split, true, fuel);
    return Some(Unsplit(number)), queue', factors', fuel';
  }

  /** A pop spends at least one unit of fuel, and whatever is left after popping a number
      other than 1 still meets the driver's invariant. */
  lemma PopRest(queue: seq<int>, fuel: nat)
    requires queue != [] && AllPositive(queue) && OneAlone(queue) && fuel >= Potential(queue)
    ensures fuel >= 1
    ensures queue[0] != 1 ==> AllPositive(queue[1..]) && OneAlone(queue[1..]) && fuel - 1 >= Potential(queue[1..])
  {
    PotentialPositive(queue);
    assert Potential(queue) == 2 * queue[0] - 1 + Potential(queue[1..]);
  }

  /** Pushing the two parts of a proper split keeps the driver's invariant and its result. */
  lemma PopSplit(queue: seq<int>, factors: seq<int>, isPrime: int -> bool, split: int -> Option<Positive>,
                 fuel: nat, f: Positive, twin: int)
    requires queue != [] && AllPositive(queue) && OneAlone(queue) && fuel >= Potential(queue) && fuel >= 1
    requires queue[0] != 1 && !isPrime(queue[0]) && split(queue[0]) == Some(f)
    requires 1 < f < queue[0] && Divides(f, queue[0]) && twin == queue[0] / f
    ensures var next := queue[1..] + [f, twin];
      AllPositive(next) && OneAlone(next) && fuel - 1 >= Potential(next) &&
      Run(next, factors, isPrime, split, true, fuel - 1) == Run(queue, factors, isPrime, split, true, fuel)
  {
    TwinBounds(queue[0], f);
    RunPopSplit(queue, factors, isPrime, split, true, fuel, f);
    PushTwo(queue, f, twin, true);
    PotentialPushTwo(queue, f, twin);
  }

  // ---------------------------------------------------------------------------------------
  // What the driver promises

  /** The driver always finishes: it returns factors or panics, never loops. */
  lemma FactorFinishes(n: int, draw: RandomSource)
    requires n >= 1
    ensures FactorSpec(n, draw) != OutOfFuel
  {
    RhoSplitterProper();
    DriveFinishes(n, PassesTest(draw), RhoSplitter(), true, 2 * n);
  }

  /** The factors multiply back to `n`. */
  lemma FactorProduct(n: int, draw: RandomSource)
    requires n >= 1
    ensures var r := FactorSpec(n, draw); r.Factors? ==> Product(r.factors) == n
  {
    RhoSplitterProper();
    DriveProduct(n, PassesTest(draw), RhoSplitter(), true, 2 * n);
  }

  /** Every factor is a stripped 2 or a number that Miller-Rabin accepted; so no factor is
      below 2, and no factor is a number Miller-Rabin rejects. */
  lemma FactorVerdicts(n: int, draw: RandomSource)
    requires n >= 1
    ensures var r := FactorSpec(n, draw);
      r.Factors? ==> forall i :: 0 <= i < |r.factors| ==>
        r.factors[i] >= 2 && (r.factors[i] == 2 || MillerRabinSpec(r.factors[i], 40, draw) == ProbablyPrime)
  {
    var r := FactorSpec(n, draw);
    DriveVerdicts(n, PassesTest(draw), RhoSplitter(), true, 2 * n);
    if r.Factors? {
      forall i | 0 <= i < |r.factors|
        ensures r.factors[i] >= 2 && (r.factors[i] == 2 || MillerRabinSpec(r.factors[i], 40, draw) == ProbablyPrime)
      {
        assert r.factors[i] == 2 || PassesTest(draw)(r.factors[i]);
      }
    }
  }

  /** A prime comes back alone. */
  lemma FactorPrime(p: int, draw: RandomSource)
    requires IsPrime(p)
    ensures FactorSpec(p, draw) == Factors([p])
  {
    MillerRabinSound(p, 40, draw);
    DrivePrime(p, PassesTest(draw), RhoSplitter(), true, 2 * p);
  }

  /** A power of two is all twos: the worklist pops the 1 left after stripping and returns. */
  lemma FactorPowerOfTwo(s: nat, draw: RandomSource)
    ensures FactorSpec(Pow2(s), draw) == Factors(Repeat(2, s))
  {
    DrivePowerOfTwo(s, PassesTest(draw), RhoSplitter(), true, 2 * Pow2(s));
  }

  /** When the driver panics, it is on a composite divisor of `n` that all 99 offsets failed
      to split. */
  lemma FactorUnsplit(n: int, draw: RandomSource)
    requires n >= 1
    ensures var r := FactorSpec(n, draw);
      r.Unsplit? ==>
        r.number >= 2 && Divides(r.number, n) && !IsPrime(r.number) &&
        MillerRabinSpec(r.number, 40, draw) == Composite &&
        forall o :: 1 <= o < 100 ==> SingleSpec(r.number, o) == None
  {
    var r := FactorSpec(n, draw);
    RhoSplitterProper();
    DriveUnsplit(n, PassesTest(draw), RhoSplitter(), true, 2 * n);
    if r.Unsplit? {
      var m := r.number;
      MillerRabinSound(m, 40, draw);
      assert RhoSplitter()(m) == SplitFrom(m, 1);
      SplitFromFirst(m, 1);
    }
  }
}
