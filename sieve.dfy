/**
 * The sieve of Eratosthenes of src/sieve.rs: a table `nums` of `len + 1` flags, where
 * `nums[i]` ends up true exactly when `i` is prime.
 *
 * `Sieve::new` clears entries 0 and 1, then for every `b` from 2 to `len` clears the proper
 * multiples `2b, 3b, ...` up to `len` (whether or not `b` itself is still set). An entry
 * survives exactly when no number in `[2, i)` divides `i`.
 */
module Sieves {
  import opened Arith

  /** `i >= 2` and no `d` in `[2, b)` below `i` divides `i`: what survives the passes for
      `2, ..., b - 1`. */
  ghost predicate Survives(i: int, b: int) {
    i >= 2 && forall d :: 2 <= d < b && d < i ==> i % d != 0
  }

  /** The pass for `b` clears exactly the proper multiples of `b`. */
  lemma SurvivesStep(i: int, b: int)
    requires b >= 2
    ensures Survives(i, b + 1) == (Survives(i, b) && !(b < i && i % b == 0))
  {
  }

  /** After the passes for every `b` up to `len`, the survivors up to `len` are the primes. */
  lemma SurvivesAll(i: int, len: int)
    requires 0 <= i <= len
    ensures Survives(i, len + 1) == IsPrime(i)
  {
  }

  class Sieve {
    /** `nums[i]` says whether `i` is prime, for `0 <= i <= len`. */
    var nums: array<bool>

    ghost predicate Valid()
      reads this, nums
    {
      nums.Length >= 2 && forall i :: 0 <= i < nums.Length ==> nums[i] == IsPrime(i)
    }

    /** `Sieve::new` (src/sieve.rs:6-17). `new(0)` has no entry 1 to clear and panics, hence
        `len >= 1`. */
    constructor (len: int)
      requires len >= 1
      ensures Valid() && nums.Length == len + 1 && fresh(nums)
    {
      var flags := new bool[len + 1](_ => true);
      flags[0] := false;
      flags[1] := false;
      for b := 2 to len + 1
        invariant forall i :: 0 <= i < flags.Length ==> flags[i] == Survives(i, b)
      {
        ClearMultiples(flags, b);
      }
      forall i | 0 <= i < flags.Length
        ensures flags[i] == IsPrime(i)
      {
        SurvivesAll(i, len);
      }
      nums := flags;
    }

    /** `Sieve::is_prime` (src/sieve.rs:26-28); the index must be in the table. */
    function IsPrimeAt(n: int): (b: bool)
      reads this, nums
      requires Valid() && 0 <= n < nums.Length
      ensures b == IsPrime(n)
    {
      nums[n]
    }

    /** `Sieve::primes` (src/sieve.rs:19-24): the indices whose flag is set, in increasing
        order. */
    function Primes(): (ps: seq<int>)
      reads this, nums
      requires Valid()
      ensures StrictlyIncreasing(ps)
      ensures forall x :: x in ps <==> 0 <= x < nums.Length && IsPrime(x)
    {
      SetIndices(nums[..], 0)
    }
  }

  /** The inner loop of `Sieve::new` (src/sieve.rs:11-13): clear the proper multiples
      `2b, 3b, ...` of `b` that are in the table. */
  method ClearMultiples(flags: array<bool>, b: int)
    requires b >= 2
    requires forall i :: 0 <= i < flags.Length ==> flags[i] == Survives(i, b)
    modifies flags
    ensures forall i :: 0 <= i < flags.Length ==> flags[i] == Survives(i, b + 1)
  {
    var multiple := 2 * b;
    ghost var k := 2;
    ClearedStart(flags[..], b);
    while multiple < flags.Length
      invariant k >= 2 && multiple == k * b
      invariant Cleared(flags[..], b, multiple)
      decreases flags.Length - multiple
    {
      ClearStep(flags[..], b, k, multiple);
      flags[multiple] := false;
      multiple, k := multiple + b, k + 1;
    }
    ClearedEnd(flags[..], b, multiple);
    forall i | 0 <= i < flags.Length
      ensures flags[i] == Survives(i, b + 1)
    {
      assert flags[i] == flags[..][i];
    }
  }

  /** The table after the pass for `b` has cleared the multiples of `b` below `upto`. */
  ghost predicate Cleared(flags: seq<bool>, b: int, upto: int) {
    b >= 2 && forall i :: 0 <= i < |flags| ==> flags[i] == (Survives(i, b) && !(b < i < upto && i % b == 0))
  }

  /** Before the pass for `b`, nothing below `2 * b` is a proper multiple of `b`. */
  lemma ClearedStart(flags: seq<bool>, b: int)
    requires b >= 2 && forall i :: 0 <= i < |flags| ==> flags[i] == Survives(i, b)
    ensures Cleared(flags, b, 2 * b)
  {
    forall i | b < i < 2 * b
      ensures i % b != 0
    {
      DivModUnique(i, b, 1, i - b);
    }
  }

  /** Once the pass has gone past the table, the table holds the survivors of `b + 1`. */
  lemma ClearedEnd(flags: seq<bool>, b: int, upto: int)
    requires Cleared(flags, b, upto) && upto >= |flags|
    ensures forall i :: 0 <= i < |flags| ==> flags[i] == Survives(i, b + 1)
  {
    forall i | 0 <= i < |flags|
      ensures flags[i] == Survives(i, b + 1)
    {
      SurvivesStep(i, b);
    }
  }

  /** Clearing the multiple `m == k * b` moves the cleared range on to `m + b`: nothing in
      between is a multiple of `b`. */
  lemma ClearStep(flags: seq<bool>, b: int, k: int, m: int)
    requires b >= 2 && k >= 2 && m == k * b && 0 <= m < |flags| && Cleared(flags, b, m)
    ensures Cleared(flags[m := false], b, m + b)
  {
    ModAddMultiple(k, 0, b);
    assert b < m by { MulAtLeast(k - 1, b); assert m - b == (k - 1) * b; }
    forall i | m < i < m + b
      ensures i % b != 0
    {
      ModAddMultiple(k, i - m, b);
      DivModUnique(i - m, b, 0, i - m);
    }
  }

  ghost predicate StrictlyIncreasing(s: seq<int>) {
    forall i, j :: 0 <= i < j < |s| ==> s[i] < s[j]
  }

  /** The positions `from + i` of the set flags in `flags`, in order. */
  function SetIndices(flags: seq<bool>, from: int): (ps: seq<int>)
    ensures StrictlyIncreasing(ps)
    ensures forall x :: x in ps <==> from <= x < from + |flags| && flags[x - from]
    ensures forall i :: 0 <= i < |ps| ==> ps[i] >= from
    decreases |flags|
  {
    if flags == [] then []
    else
      var rest := SetIndices(flags[1..], from + 1);
      if flags[0] then [from] + rest else rest
  }
}
