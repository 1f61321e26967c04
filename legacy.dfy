/**
 * `brents_rho` of src/algorithms.rs, the older copy of the Brent's rho factorizer: the same
 * stripping of twos, the same worklist with Miller-Rabin and the rho splitter, and a final
 * `factors.sort()` before the normal return.
 *
 * The worklist loop returns early, without sorting, when it pops a 1. Every split pushes two
 * parts above 1, so a 1 is only ever popped first, when the stripped odd part is 1; the
 * factors are then all twos and already in order.
 *
 * The copies of `gcd`, `miller_rabin`, `factor_out_twos`, `brents_rho_single` and
 * `trial_division` in the same file are the same loops as the ones in `Gcd`, `Primality`,
 * `BrentsRho` and `TrialDivision`.
 */
module Legacy {
  import opened Arith
  import opened Primality
  import opened Worklist
  import opened TrialDivision
  import BrentsRho

  /** Insert `x` into `s` in front of the first element not below it. */
  function Insert(x: int, s: seq<int>): (r: seq<int>)
    ensures multiset(r) == multiset(s) + multiset{x}
  {
    if s == [] || x <= s[0] then [x] + s
    else
      assert s == [s[0]] + s[1..];
      [s[0]] + Insert(x, s[1..])
  }

  /** Inserting into a sorted list keeps it sorted. */
  lemma {:induction false} InsertSorted(x: int, s: seq<int>)
    requires Sorted(s)
    ensures Sorted(Insert(x, s))
  {
    if s != [] && x > s[0] {
      var t := Insert(x, s[1..]);
      SortedTail(s);
      InsertSorted(x, s[1..]);
      forall j | 0 <= j < |t|
        ensures s[0] <= t[j]
      {
        assert t[j] in multiset(t);
        if t[j] != x {
          HeadIsMin(s, t[j]);
        }
      }
      SortedCons(s[0], t);
    } else if s != [] {
      HeadIsMin(s, s[0]);
      forall j | 0 <= j < |s|
        ensures x <= s[j]
      {
        HeadIsMin(s, s[j]);
      }
      SortedCons(x, s);
    }
  }

  /** A list whose head is at most every later element, and whose tail is sorted, is
      sorted. */
  lemma SortedCons(x: int, t: seq<int>)
    requires Sorted(t) && forall j :: 0 <= j < |t| ==> x <= t[j]
    ensures Sorted([x] + t)
  {
    var r := [x] + t;
    forall i, j | 0 <= i < j < |r|
      ensures r[i] <= r[j]
    {
      assert r[j] == t[j - 1];
      if i > 0 {
        assert r[i] == t[i - 1];
      }
    }
  }

  lemma SortedTail(s: seq<int>)
    requires Sorted(s) && s != []
    ensures Sorted(s[1..])
  {
    var t := s[1..];
    forall i, j | 0 <= i < j < |t|
      ensures t[i] <= t[j]
    {
      assert t[i] == s[i + 1] && t[j] == s[j + 1];
    }
  }

  /** The head of a sorted list is its least element. */
  lemma HeadIsMin(s: seq<int>, x: int)
    requires Sorted(s) && x in multiset(s)
    ensures s != [] && s[0] <= x
  {
    var i :| 0 <= i < |s| && s[i] == x;
    if i > 0 {
      assert s[0] <= s[i];
    }
  }

  /** `slice::sort` on a list of integers: insertion sort. */
  function Sort(s: seq<int>): (r: seq<int>)
    ensures Sorted(r) && multiset(r) == multiset(s)
  {
    if s == [] then []
    else
      assert s == [s[0]] + s[1..];
      var t := Sort(s[1..]);
      InsertSorted(s[0], t);
      Insert(s[0], t)
  }

  /** There is only one sorted ordering of a list: whatever algorithm `slice::sort` uses, its
      result is `Sort`'s. */
  lemma {:induction false} SortedUnique(a: seq<int>, b: seq<int>)
    requires Sorted(a) && Sorted(b) && multiset(a) == multiset(b)
    ensures a == b
    decreases |a|
  {
    if a != [] {
      SameHead(a, b);
      SortedUnique(a[1..], b[1..]);
      assert a == [a[0]] + a[1..] && b == [b[0]] + b[1..];
    }
  }

  /** Two sorted orderings of the same non-empty list start alike and go on with sorted
      orderings of the same rest. */
  lemma SameHead(a: seq<int>, b: seq<int>)
    requires Sorted(a) && Sorted(b) && multiset(a) == multiset(b) && a != []
    ensures b != [] && a[0] == b[0] && |a[1..]| < |a|
    ensures Sorted(a[1..]) && Sorted(b[1..]) && multiset(a[1..]) == multiset(b[1..])
  {
    assert a[0] in multiset(a);
    HeadIsMin(b, a[0]);
    assert b[0] in multiset(b);
    HeadIsMin(a, b[0]);
    TailMultiset(a);
    TailMultiset(b);
    SortedTail(a);
    SortedTail(b);
  }

  lemma TailMultiset(a: seq<int>)
    requires a != []
    ensures multiset(a[1..]) == multiset(a) - multiset{a[0]}
  {
    assert a == [a[0]] + a[1..];
  }

  /** A sorted list is its own sort. */
  lemma SortSorted(s: seq<int>)
    requires Sorted(s)
    ensures Sort(s) == s
  {
    SortedUnique(Sort(s), s);
  }

  /** What `brents_rho(n)` returns for a positive `n`: the factors of `BrentsRho::factor(n)`,
      sorted, or the same panic. */
  ghost function LegacySpec(n: int, draw: RandomSource): Outcome
    requires n >= 1
  {
    match BrentsRho.FactorSpec(n, draw)
    case Factors(fs) => Factors(Sort(fs))
    case other => other
  }

  /** `brents_rho` (src/algorithms.rs:42-87). A popped 1 returns the factors as they are; a
      popped 1 is only ever the stripped odd part, so the sort is skipped exactly when the odd
      part is 1. */
  method Factor(n: int, draw: RandomSource) returns (outcome: Outcome)
    requires n >= 1
    ensures outcome == LegacySpec(n, draw)
  {
    var factors, odd := StripTwos(n);
    OddPartBound(n);
    BrentsRho.RhoSplitterProper();
    outcome := BrentsRho.Drain([odd], factors, draw, PassesTest(draw), BrentsRho.RhoSplitter(), 2 * n);
    if odd == 1 {
      RunPopOne([1], factors, PassesTest(draw), BrentsRho.RhoSplitter(), true, 2 * n);
      RepeatSorted(2, |factors|);
      SortSorted(factors);
    } else if outcome.Factors? {
      outcome := Factors(Sort(outcome.factors));
    }
  }

  lemma RepeatSorted(x: int, k: nat)
    ensures Sorted(Repeat(x, k))
  {
  }

  // ---------------------------------------------------------------------------------------
  // What the legacy factorizer promises

  /** It finishes, with the factors of the newer copy in increasing order, or with the same
      panic. */
  lemma LegacyAgrees(n: int, draw: RandomSource)
    requires n >= 1
    ensures var r, s := LegacySpec(n, draw), BrentsRho.FactorSpec(n, draw);
      r != OutOfFuel && r.Factors? == s.Factors? && (r.Unsplit? ==> r == s) &&
      (r.Factors? ==> Sorted(r.factors) && multiset(r.factors) == multiset(s.factors))
  {
    BrentsRho.FactorFinishes(n, draw);
  }

  /** A prime comes back alone. */
  lemma LegacyPrime(p: int, draw: RandomSource)
    requires IsPrime(p)
    ensures LegacySpec(p, draw) == Factors([p])
  {
    BrentsRho.FactorPrime(p, draw);
    assert Sorted([p]);
    SortSorted([p]);
  }

  /** The sorted factors multiply back to `n`, and each one is a 2 or a number Miller-Rabin
      accepted. */
  lemma LegacyFactors(n: int, draw: RandomSource)
    requires n >= 1
    ensures var r := LegacySpec(n, draw);
      r.Factors? ==> Product(r.factors) == n && forall x :: x in r.factors ==>
        x >= 2 && (x == 2 || MillerRabinSpec(x, 40, draw) == ProbablyPrime)
  {
    var s := BrentsRho.FactorSpec(n, draw);
    BrentsRho.FactorProduct(n, draw);
    BrentsRho.FactorVerdicts(n, draw);
    if s.Factors? {
      var r := Sort(s.factors);
      ProductPermutation(r, s.factors);
      forall x | x in r
        ensures x >= 2 && (x == 2 || MillerRabinSpec(x, 40, draw) == ProbablyPrime)
      {
        assert x in multiset(s.factors);
        var i :| 0 <= i < |s.factors| && s.factors[i] == x;
      }
    }
  }
}
