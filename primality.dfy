/**
 * The Miller-Rabin probable-prime test of src/algorithms/primality.rs; src/algorithms.rs:128-194
 * holds the same two functions word for word.
 *
 * `miller_rabin` draws its witnesses from `RandState::new()`, a generator that starts from the
 * same default seed on every call, and every draw of one call uses the same bound `number - 3`.
 * The k-th witness of a call is therefore a fixed function of the bound and of k; the model
 * takes that function as a parameter `draw` and assumes only that `draw(bound, k)` lies in
 * `[0, bound)`, as `random_below` promises.
 */
module Primality {
  import opened Arith
  import opened Residues

  datatype MillerRabinResult =
    | Composite      // definitely a composite number
    | ProbablyPrime  // probably a prime number

  /** `draw(bound, k)`: the k-th number that `random_below` returns below `bound`, which lies in
      `[0, bound)`. */
  type RandomSource = draw: (int, nat) -> int
    | forall bound, k :: bound > 0 ==> 0 <= draw(bound, k) < bound
    witness (bound: int, k: nat) => 0

  /** The witness of round `k` when testing `n`: a draw below `n - 3`, plus 2. */
  function Witness(n: int, draw: RandomSource, k: nat): (a: int)
    requires n >= 5
    ensures 2 <= a <= n - 2
  {
    draw(n - 3, k) + 2
  }

  /** Rust's `x % 2 == 0` (truncating) agrees with Dafny's Euclidean test. */
  lemma EvenTRem(x: int)
    ensures (TRem(x, 2) == 0) == (x % 2 == 0)
  {
    var q := x / 2;
    if x < 0 {
      assert -x == 2 * (-q) - x % 2;
      if x % 2 == 1 {
        DivModUnique(-x, 2, -q - 1, 1);
      } else {
        DivModUnique(-x, 2, -q, 0);
      }
    }
  }

  /** `factor_out_twos` (src/algorithms/primality.rs:56-77). Its first loop spins until `n` is
      even and so never ends on an odd `n`; its second loop never ends on 0. The precondition
      excludes both: for an even non-zero `n` the first loop exits at once. */
  method FactorOutTwos(n: int) returns (s: nat, d: int)
    requires n != 0 && n % 2 == 0
    ensures Pow2(s) * d == n && d % 2 == 1 && s >= 1
    ensures (s, d) == TwoAdic(n)
  {
    s, d := 0, n;
    EvenTRem(d);
    while TRem(d, 2) == 0
      invariant d != 0
      invariant TwoAdic(n) == (s + TwoAdic(d).0, TwoAdic(d).1)
      invariant s == 0 ==> d == n
      decreases Abs(d)
    {
      s := s + 1;
      d := d / 2;
      EvenTRem(d);
    }
  }

  /** `a^(d * 2^i) mod n`: the witness after the first power and `i` squarings. */
  function Squared(a: int, d: nat, i: nat, n: int): int
    requires n > 0
  {
    ModPow(a, d * Pow2(i), n)
  }

  lemma SquaredStep(a: int, d: nat, i: nat, n: int)
    requires n > 0
    ensures ModPow(Squared(a, d, i, n), 2, n) == Squared(a, d, i + 1, n)
    ensures 0 <= Squared(a, d, i, n) < n
  {
    ModPowSquare(a, d * Pow2(i), n);
    assert d * Pow2(i + 1) == 2 * (d * Pow2(i));
  }

  /** One round of the test with witness `a` passes: `a^d` is 1 or -1 modulo `n`, or one of the
      next `s - 1` squarings is -1, where `n - 1 = 2^s * d` with `d` odd. */
  ghost predicate RoundPasses(n: int, a: int)
    requires n >= 3 && n % 2 == 1
  {
    var (s, d) := TwoAdic(n - 1);
    var x := ModPow(a, d, n);
    x == 1 || x == n - 1 || exists i :: 1 <= i < s && Squared(a, d, i, n) == n - 1
  }

  /** What `miller_rabin(n, iterations)` returns: 2 and 3 are probable primes, other even
      numbers and numbers below 3 are composite, and an odd `n >= 5` is a probable prime
      exactly when all `iterations` rounds pass. */
  ghost function MillerRabinSpec(n: int, iterations: nat, draw: RandomSource): MillerRabinResult
  {
    if n == 2 || n == 3 then ProbablyPrime
    else if n % 2 == 0 || n < 3 then Composite
    else if forall k :: 0 <= k < iterations ==> RoundPasses(n, Witness(n, draw, k)) then ProbablyPrime
    else Composite
  }

  /** `miller_rabin` (src/algorithms/primality.rs:11-51). */
  method MillerRabin(number: int, iterations: nat, draw: RandomSource) returns (r: MillerRabinResult)
    ensures r == MillerRabinSpec(number, iterations, draw)
    ensures IsPrime(number) ==> r == ProbablyPrime
    ensures number == 2 || number == 3 ==> r == ProbablyPrime
    ensures number != 2 && (number % 2 == 0 || number < 3) ==> r == Composite
    ensures iterations == 0 && number >= 3 && number % 2 == 1 ==> r == ProbablyPrime
  {
    MillerRabinSound(number, iterations, draw);
    if number == 2 || number == 3 {
      return ProbablyPrime;
    }
    EvenTRem(number);
    if TRem(number, 2) == 0 || number < 3 {
      return Composite;
    }
    var numberMinusOne := number - 1;
    var numberMinusThree := numberMinusOne - 2;
    var exponent, scalar := FactorOutTwos(numberMinusOne);
    label rounds: for k := 0 to iterations
      invariant forall j :: 0 <= j < k ==> RoundPasses(number, Witness(number, draw, j))
    {
      var a := draw(numberMinusThree, k) + 2;
      assert a == Witness(number, draw, k);
      var randomWitness := ModPow(a, scalar, number);
      if randomWitness == 1 || randomWitness == numberMinusOne {
        continue;
      }
      var loopCount: nat := 0;
      while true
        invariant loopCount < exponent
        invariant randomWitness == Squared(a, scalar, loopCount, number)
        invariant forall i :: 1 <= i <= loopCount ==> Squared(a, scalar, i, number) != numberMinusOne
        decreases exponent - loopCount
      {
        if loopCount >= exponent - 1 {
          return Composite;
        }
        SquaredStep(a, scalar, loopCount, number);
        randomWitness := ModPow(randomWitness, 2, number);
        if randomWitness == numberMinusOne {
          continue rounds;
        }
        loopCount := loopCount + 1;
      }
    }
    return ProbablyPrime;
  }

  /** Squaring down from `a^(n-1) = 1`: either `a^d` is 1 or -1, or some intermediate square
      is -1. */
  lemma {:induction false} SquaringChain(p: int, a: int, d: nat, j: nat)
    requires IsPrime(p) && Squared(a, d, j, p) == 1
    ensures var x := Squared(a, d, 0, p);
      x == 1 || x == p - 1 || exists i :: 1 <= i < j && Squared(a, d, i, p) == p - 1
  {
    if j > 0 {
      var y := Squared(a, d, j - 1, p);
      SquaredStep(a, d, j - 1, p);
      PowTwo(y);
      SquareRootOfOne(p, y);
      if y == 1 {
        SquaringChain(p, a, d, j - 1);
      }
    }
  }

  /** Every witness passes a round when `n` is prime. */
  lemma RoundPassesForPrime(p: int, a: int)
    requires IsPrime(p) && p >= 5 && 2 <= a <= p - 2
    ensures p % 2 == 1 && RoundPasses(p, a)
  {
    assert p % 2 != 0;
    var (s, d) := TwoAdic(p - 1);
    LittleFermat(p, a);
    assert d * Pow2(s) == p - 1;
    SquaringChain(p, a, d, s);
  }

  /** Soundness of the Composite verdict: a prime is never reported composite, whatever the
      witnesses. */
  lemma MillerRabinSound(n: int, iterations: nat, draw: RandomSource)
    ensures IsPrime(n) ==> MillerRabinSpec(n, iterations, draw) == ProbablyPrime
  {
    if IsPrime(n) && n >= 5 {
      forall k | 0 <= k < iterations
        ensures RoundPasses(n, Witness(n, draw, k))
      {
        RoundPassesForPrime(n, Witness(n, draw, k));
      }
    }
  }

  /** The primality oracle of both drivers: `miller_rabin(m, 40)` says `ProbablyPrime`. */
  ghost function PassesTest(draw: RandomSource): int -> bool {
    m => MillerRabinSpec(m, 40, draw) == ProbablyPrime
  }
}
