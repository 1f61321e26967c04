/**
 * Factorization by trial division (src/algorithms/trial_division.rs; `trial_division` of
 * src/math.rs on `u128` and of src/algorithms.rs are the same loop).
 *
 * The candidates are 2 and then the odd numbers from 3 upwards. Each candidate divides the
 * remaining number out as often as it can; the loop stops once the remainder is 1 or less.
 * A candidate that divides the remainder has no smaller divisor left in it, so it is prime,
 * and the candidates only grow, so the factors come out in order.
 */
module TrialDivision {
  import opened Arith
  import Residues

  /** No `d` in `[2, c)` divides `n`. */
  ghost predicate NoDivisorBelow(n: int, c: int) {
    forall d :: 2 <= d < c ==> !Divides(d, n)
  }

  ghost predicate Sorted(s: seq<int>) {
    forall i, j :: 0 <= i < j < |s| ==> s[i] <= s[j]
  }

  ghost predicate AllPrime(s: seq<int>) {
    forall i :: 0 <= i < |s| ==> IsPrime(s[i])
  }

  /** A candidate that divides a number with no divisor below it is prime. */
  lemma CandidatePrime(c: int, rest: int)
    requires c >= 2 && rest >= 1 && Divides(c, rest) && NoDivisorBelow(rest, c)
    ensures IsPrime(c)
  {
    forall d | 2 <= d < c
      ensures c % d != 0
    {
      if c % d == 0 {
        DividesIntro(d, c, c / d);
        DividesTrans(d, c, rest);
      }
    }
  }

  /** A number above 1 without a divisor below `c` is at least `c`. */
  lemma NoDivisorBound(rest: int, c: int)
    requires rest >= 2 && NoDivisorBelow(rest, c)
    ensures rest >= c
  {
    if rest < c {
      DividesIntro(rest, rest, 1);
    }
  }

  /** Dividing out a factor keeps every divisor-free range divisor-free. */
  lemma NoDivisorQuotient(rest: int, c: int, q: int, bound: int)
    requires rest == q * c && NoDivisorBelow(rest, bound)
    ensures NoDivisorBelow(q, bound)
  {
    forall d | 2 <= d < bound
      ensures !Divides(d, q)
    {
      if Divides(d, q) {
        DividesMul(d, q, c);
      }
    }
  }

  /** `TrialDivision::factor` (src/algorithms/trial_division.rs:17-43): nothing for 0 or for
      any number below 2; otherwise the prime factors of `number` in non-decreasing order. */
  method Factor(number: int) returns (factors: seq<int>)
    ensures number <= 1 ==> factors == []
    ensures number >= 1 ==> Product(factors) == number
    ensures Sorted(factors) && AllPrime(factors)
  {
    factors := [];
    if number == 0 {
      return;
    }
    var rest := number;
    var candidate := 2;
    while rest > 1
      invariant candidate >= 2 && (candidate == 2 || candidate % 2 == 1)
      invariant candidate > 2 ==> rest % 2 == 1
      invariant rest >= 1 ==> Product(factors) * rest == number
      invariant rest <= 1 ==> rest == number && factors == []
      invariant rest > 1 ==> NoDivisorBelow(rest, candidate)
      invariant Sorted(factors) && AllPrime(factors)
      invariant forall i :: 0 <= i < |factors| ==> factors[i] <= candidate
      decreases rest, rest - candidate
    {
      NoDivisorBound(rest, candidate);
      rest, factors := DivideOut(number, rest, candidate, factors);
      if rest <= 1 {
        break;
      }
      var next := if candidate == 2 then 3 else candidate + 2;
      NextCandidate(rest, candidate, next);
      candidate := next;
    }
  }

  /** Moving on to the next candidate: 3 after 2, then two further, skipping an even number
      that cannot divide the odd remainder. */
  lemma NextCandidate(rest: int, candidate: int, next: int)
    requires candidate >= 2 && (candidate == 2 || candidate % 2 == 1)
    requires candidate > 2 ==> rest % 2 == 1
    requires NoDivisorBelow(rest, candidate) && !Divides(candidate, rest)
    requires next == if candidate == 2 then 3 else candidate + 2
    ensures NoDivisorBelow(rest, next) && next % 2 == 1 && rest % 2 == 1
  {
    forall d | 2 <= d < next
      ensures !Divides(d, rest)
    {
      if d == candidate + 1 && candidate > 2 {
        EvenDivisor(d, rest);
      }
    }
  }

  /** The factors found so far with the part of `number` still to factor: their product is
      `number`, they are sorted prime and none is above the candidate `c`. */
  ghost predicate Found(number: int, rest: int, c: int, factors: seq<int>) {
    && Product(factors) * rest == number
    && Sorted(factors) && AllPrime(factors)
    && forall i :: 0 <= i < |factors| ==> factors[i] <= c
  }

  /** The inner `loop` of `TrialDivision::factor` (src/algorithms/trial_division.rs:31-38):
      divide `candidate` out of `rest` as often as it goes, pushing it each time. */
  method DivideOut(ghost number: int, rest: int, candidate: int, factors: seq<int>)
    returns (rest': int, factors': seq<int>)
    requires candidate >= 2 && rest >= 1 && NoDivisorBelow(rest, candidate)
    requires Product(factors) * rest == number && (candidate > 2 ==> rest % 2 == 1)
    requires Sorted(factors) && AllPrime(factors)
    requires forall i :: 0 <= i < |factors| ==> factors[i] <= candidate
    ensures 1 <= rest' <= rest && NoDivisorBelow(rest', candidate) && !Divides(candidate, rest')
    ensures Product(factors') * rest' == number && (candidate > 2 ==> rest' % 2 == 1)
    ensures Sorted(factors') && AllPrime(factors')
    ensures forall i :: 0 <= i < |factors'| ==> factors'[i] <= candidate
  {
    rest', factors' := rest, factors;
    while rest' % candidate == 0
      invariant 1 <= rest' <= rest && NoDivisorBelow(rest', candidate)
      invariant Found(number, rest', candidate, factors')
      invariant candidate > 2 ==> rest' % 2 == 1
      decreases rest'
    {
      var q := rest' / candidate;
      PushCandidate(number, rest', candidate, q, factors');
      factors' := factors' + [candidate];
      rest' := q;
    }
  }

  /** One pass of the inner loop keeps its invariant: `q` is `rest / c` and `c` divides
      `rest`, so `c` is the next prime factor and `q` what is left. */
  lemma PushCandidate(number: int, rest: int, c: int, q: int, factors: seq<int>)
    requires c >= 2 && rest >= 1 && rest % c == 0 && q == rest / c && NoDivisorBelow(rest, c)
    requires Found(number, rest, c, factors) && (c > 2 ==> rest % 2 == 1)
    ensures 1 <= q < rest && NoDivisorBelow(q, c)
    ensures Found(number, q, c, factors + [c]) && (c > 2 ==> q % 2 == 1)
  {
    ExactQuotient(rest, c);
    DividesIntro(c, rest, q);
    CandidatePrime(c, rest);
    QuotientBounds(rest, c, q);
    FoundSnoc(number, rest, c, q, factors);
    NoDivisorQuotient(rest, c, q, c);
    if c > 2 {
      OddQuotient(rest, c, q);
    }
  }

  lemma ExactQuotient(n: int, c: int)
    requires c > 0 && n % c == 0
    ensures n == (n / c) * c
  {
  }

  /** Pushing a prime `c` that divides `rest` as `c * q` keeps the found factors in order. */
  lemma FoundSnoc(number: int, rest: int, c: int, q: int, factors: seq<int>)
    requires Found(number, rest, c, factors) && rest == q * c && IsPrime(c)
    ensures Found(number, q, c, factors + [c])
  {
    ProductSnoc(factors, c, q, rest);
  }

  lemma QuotientBounds(rest: int, c: int, q: int)
    requires rest >= 1 && c >= 2 && rest == q * c
    ensures 1 <= q < rest
  {
    assert rest - q == q * (c - 1);
    MulAtLeast(q, c - 1);
  }

  lemma ProductSnoc(factors: seq<int>, c: int, q: int, rest: int)
    requires rest == q * c
    ensures Product(factors + [c]) * q == Product(factors) * rest
  {
    ProductAppend(factors, [c]);
    assert Product([c]) == c;
    MulAssoc(Product(factors), c, q);
  }

  lemma OddQuotient(rest: int, c: int, q: int)
    requires rest % 2 == 1 && rest == q * c
    ensures q % 2 == 1
  {
    if q % 2 == 0 {
      DividesIntro(2, q, q / 2);
      DividesMul(2, q, c);
    }
  }

  lemma EvenDivisor(d: int, n: int)
    requires d % 2 == 0 && n % 2 == 1 && d > 0
    ensures !Divides(d, n)
  {
    if Divides(d, n) {
      DividesIntro(2, d, d / 2);
      DividesTrans(2, d, n);
    }
  }

  /** `TrialDivision::factor_generic` (src/algorithms/trial_division.rs:7-13): converting to
      an integer first changes nothing. */
  method FactorGeneric(num: int) returns (factors: seq<int>)
    ensures num <= 1 ==> factors == []
    ensures num >= 1 ==> Product(factors) == num
    ensures Sorted(factors) && AllPrime(factors)
  {
    factors := Factor(num);
  }

  /** The largest `u128`, plus one. */
  const U128_LIMIT: int := 0x1_0000_0000_0000_0000_0000_0000_0000_0000

  /** `trial_division` of src/math.rs (src/math.rs:1-20) on a `u128`: the same loop. Every
      factor it returns is at most the number, so none exceeds a `u128`. */
  method TrialDivisionU128(n: int) returns (factors: seq<int>)
    requires 0 <= n < U128_LIMIT
    ensures n <= 1 ==> factors == []
    ensures n >= 1 ==> Product(factors) == n
    ensures Sorted(factors) && AllPrime(factors)
    ensures forall i :: 0 <= i < |factors| ==> 2 <= factors[i] < U128_LIMIT
  {
    factors := Factor(n);
    if n >= 1 {
      forall i | 0 <= i < |factors|
        ensures factors[i] <= n
      {
        ProductPositive(factors);
        FactorAtMostProduct(factors, i);
      }
    }
  }

  /** A prime is its own factorization: the only sequence of primes whose product is a prime
      `p` is `[p]`. */
  lemma PrimeFactorization(p: int, s: seq<int>)
    requires IsPrime(p) && AllPrime(s) && Product(s) == p
    ensures s == [p]
  {
    assert s != [];
    var rest := s[1..];
    assert p == s[0] * Product(rest);
    AllPrimePositive(rest);
    ProductPositive(rest);
    DividesIntro(s[0], p, Product(rest));
    Residues.PrimeDivisor(p, s[0]);
    assert s[0] == p;
    assert Product(rest) == 1 by {
      assert p * Product(rest) == p * 1;
    }
    if rest != [] {
      AllPrimePositive(rest[1..]);
      ProductPositive(rest[1..]);
      MulAtLeast(Product(rest[1..]), rest[0]);
    }
  }

  lemma AllPrimePositive(s: seq<int>)
    requires AllPrime(s)
    ensures forall i :: 0 <= i < |s| ==> s[i] >= 1
  {
  }
}
