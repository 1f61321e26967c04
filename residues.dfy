/**
 * Facts about residues modulo a prime that the Miller-Rabin test relies on: Euclid's lemma,
 * Fermat's little theorem and the square roots of one. The crate states none of these; its
 * doc comment on `MillerRabinResult::Composite` ("definitely a composite number",
 * src/algorithms/primality.rs:5-6) is the promise they justify.
 */
module Residues {
  import opened Arith
  import opened Gcd

  /** Extended Euclid: the greatest common divisor is an integer combination of its
      arguments. */
  lemma {:induction false} Bezout(a: nat, b: nat) returns (u: int, v: int)
    ensures u * a + v * b == GcdOf(a, b)
    decreases b
  {
    if b == 0 {
      u, v := 1, 0;
    } else {
      var u1, v1 := Bezout(b, a % b);
      var q := a / b;
      BezoutStep(a, b, q, a % b, u1, v1);
      u, v := v1, u1 - v1 * q;
    }
  }

  /** One step of extended Euclid: a combination for `(b, r)` gives one for `(a, b)` when
      `a == q * b + r`. */
  lemma BezoutStep(a: int, b: int, q: int, r: int, u1: int, v1: int)
    requires a == q * b + r
    ensures v1 * a + (u1 - v1 * q) * b == u1 * b + v1 * r
  {
    assert (u1 - v1 * q) * b == u1 * b - (v1 * q) * b;
    assert v1 * (q * b + r) == v1 * (q * b) + v1 * r;
    assert (v1 * q) * b == v1 * (q * b);
  }

  /** The only non-negative divisors of a prime are 1 and itself. */
  lemma PrimeDivisor(p: int, d: int)
    requires IsPrime(p) && d >= 0 && Divides(d, p)
    ensures d == 1 || d == p
  {
    DivisorBounds(d, p);
  }

  /** Euclid's lemma for a factor that is a non-zero residue. */
  lemma EuclidResidue(p: int, x: int, y: int)
    requires IsPrime(p) && 0 < x < p && Divides(p, x * y)
    ensures Divides(p, y)
  {
    var g := GcdOf(x, p);
    PrimeDivisor(p, g);
    if g == p {
      DivisorBounds(p, x);
    }
    assert g == 1;
    var u, v := Bezout(x, p);
    DividesMul(p, x * y, u);
    assert Divides(p, p) by { DividesIntro(p, p, 1); }
    DividesCombination(p, x * y * u, p, -(v * y));
    EuclidRegroup(x, y, u, v, p);
  }

  lemma EuclidRegroup(x: int, y: int, u: int, v: int, p: int)
    ensures x * y * u - (-(v * y)) * p == y * (u * x + v * p)
  {
  }

  /** Euclid's lemma: a prime dividing a product divides one of its factors. */
  lemma Euclid(p: int, x: int, y: int)
    requires IsPrime(p) && Divides(p, x * y) && !Divides(p, x)
    ensures Divides(p, y)
  {
    var r, q := x % p, x / p;
    assert x == q * p + r;
    assert x * y == r * y + (q * y) * p;
    assert Divides(p, p) by { DividesIntro(p, p, 1); }
    DividesCombination(p, x * y, p, q * y);
    assert Divides(p, r * y);
    EuclidResidue(p, r, y);
  }

  /** A product of non-zero residues is not divisible by the prime. */
  lemma {:induction false} ResidueProduct(p: int, s: seq<int>)
    requires IsPrime(p)
    requires forall i :: 0 <= i < |s| ==> 0 < s[i] < p
    ensures !Divides(p, Product(s))
  {
    if s == [] {
      assert 1 % p == 1;
    } else {
      ResidueProduct(p, s[1..]);
      if Divides(p, Product(s)) {
        EuclidResidue(p, s[0], Product(s[1..]));
      }
    }
  }

  /** The integers `lo, lo + 1, ..., hi - 1`. */
  function Range(lo: int, hi: int): (r: seq<int>)
    ensures |r| == if lo < hi then hi - lo else 0
    ensures forall i :: 0 <= i < |r| ==> r[i] == lo + i
    decreases hi - lo
  {
    if lo >= hi then [] else Range(lo, hi - 1) + [hi - 1]
  }

  /** Each element of `xs` multiplied by `a`, reduced modulo `p`. */
  function Scaled(a: int, p: int, xs: seq<int>): (r: seq<int>)
    requires p > 0
    ensures |r| == |xs|
    ensures forall i :: 0 <= i < |xs| ==> r[i] == (a * xs[i]) % p
  {
    if xs == [] then [] else [(a * xs[0]) % p] + Scaled(a, p, xs[1..])
  }

  /** Scaling every factor by `a` multiplies the product by a power of `a`, modulo `p`. */
  lemma {:induction false} ScaledProduct(a: int, p: int, xs: seq<int>)
    requires p > 0
    ensures Product(Scaled(a, p, xs)) % p == (Pow(a, |xs|) * Product(xs)) % p
  {
    if xs != [] {
      var head, rest := xs[0], xs[1..];
      var pr := Pow(a, |rest|) * Product(rest);
      ScaledProduct(a, p, rest);
      assert Scaled(a, p, xs) == [(a * head) % p] + Scaled(a, p, rest);
      var ps := Product(Scaled(a, p, rest));
      calc {
        Product(Scaled(a, p, xs)) % p;
        ((a * head) % p * ps) % p;
        { ModMul((a * head) % p, ps, p); ModOfMod(a * head, p); }
        ((a * head) % p * (ps % p)) % p;
        ((a * head) % p * (pr % p)) % p;
        { ModMul(a * head, pr, p); }
        ((a * head) * pr) % p;
        { RegroupScaled(a, head, Pow(a, |rest|), Product(rest)); }
        (Pow(a, |xs|) * Product(xs)) % p;
      }
    }
  }

  lemma RegroupScaled(a: int, head: int, w: int, pr: int)
    ensures (a * head) * (w * pr) == (a * w) * (head * pr)
  {
  }

  /** Every element of `s` lies in `1..k`. */
  ghost predicate InOneTo(s: seq<int>, k: int) {
    forall i :: 0 <= i < |s| ==> 1 <= s[i] <= k
  }

  ghost predicate Distinct(s: seq<int>) {
    forall i, j :: 0 <= i < j < |s| ==> s[i] != s[j]
  }

  /** Dropping the element `k` from distinct values in `1..k` leaves distinct values in
      `1..k - 1`. */
  lemma DropTop(s: seq<int>, i: int, k: int)
    requires InOneTo(s, k) && Distinct(s) && 0 <= i < |s| && s[i] == k
    ensures var t := s[..i] + s[i + 1..]; |t| == |s| - 1 && InOneTo(t, k - 1) && Distinct(t)
  {
    var t := s[..i] + s[i + 1..];
    assert forall j :: 0 <= j < |t| ==> t[j] == if j < i then s[j] else s[j + 1];
  }

  /** Pigeonhole: distinct values drawn from `1..k` are at most `k` in number. */
  lemma {:induction false} DistinctBound(s: seq<int>, k: nat)
    requires InOneTo(s, k) && Distinct(s)
    ensures |s| <= k
  {
    if |s| > 0 {
      assert 1 <= s[0] <= k;
      if i :| 0 <= i < |s| && s[i] == k {
        DropTop(s, i, k);
        DistinctBound(s[..i] + s[i + 1..], k - 1);
      } else {
        DistinctBound(s, k - 1);
      }
    }
  }

  /** Removing an element and adding it back restores the multiset. */
  lemma RemoveThenAdd(s: seq<int>, i: int)
    requires 0 <= i < |s|
    ensures multiset(s) == multiset(s[..i] + s[i + 1..]) + multiset{s[i]}
  {
    assert s == s[..i] + ([s[i]] + s[i + 1..]);
  }

  lemma RangeSnoc(k: int)
    requires k >= 1
    ensures multiset(Range(1, k + 1)) == multiset(Range(1, k)) + multiset{k}
  {
    assert Range(1, k + 1) == Range(1, k) + [k];
  }

  /** `k` distinct values drawn from `1..k` are a permutation of `1..k`. */
  lemma {:induction false} DistinctFill(s: seq<int>, k: nat)
    requires |s| == k && InOneTo(s, k) && Distinct(s)
    ensures multiset(s) == multiset(Range(1, k + 1))
  {
    if k > 0 {
      if i :| 0 <= i < |s| && s[i] == k {
        var t := s[..i] + s[i + 1..];
        DropTop(s, i, k);
        DistinctFill(t, k - 1);
        RemoveThenAdd(s, i);
        RangeSnoc(k);
      } else {
        MissingTop(s, k);
      }
    }
  }

  /** Distinct values from `1..k` that miss `k` are fewer than `k`. */
  lemma MissingTop(s: seq<int>, k: nat)
    requires k > 0 && InOneTo(s, k) && Distinct(s)
    requires forall i :: 0 <= i < |s| ==> s[i] != k
    ensures |s| < k
  {
    DistinctBound(s, k - 1);
  }

  /** Multiplying by a non-zero residue permutes the non-zero residues. */
  lemma ScaledPermutes(p: int, a: int)
    requires IsPrime(p) && 0 < a < p
    ensures multiset(Scaled(a, p, Range(1, p))) == multiset(Range(1, p))
  {
    var r := Range(1, p);
    var s := Scaled(a, p, r);
    forall i | 0 <= i < |s|
      ensures 1 <= s[i] <= p - 1
    {
      if s[i] == 0 {
        EuclidResidue(p, a, i + 1);
        DivisorBounds(p, i + 1);
      }
    }
    forall i, j | 0 <= i < j < |s|
      ensures s[i] != s[j]
    {
      ScaledDistinct(p, a, i + 1, j + 1);
    }
    DistinctFill(s, p - 1);
  }

  lemma ScaledDistinct(p: int, a: int, x: int, y: int)
    requires IsPrime(p) && 0 < a < p && 0 < x < y < p
    ensures (a * x) % p != (a * y) % p
  {
    if (a * x) % p == (a * y) % p {
      var qx, qy := (a * x) / p, (a * y) / p;
      assert a * (y - x) == (qy - qx) * p;
      DividesIntro(p, a * (y - x), qy - qx);
      EuclidResidue(p, a, y - x);
      DivisorBounds(p, y - x);
      assert false;
    }
  }

  /** Fermat's little theorem: `a^(p-1) = 1 (mod p)` for a prime `p` and a non-zero
      residue `a`. */
  lemma LittleFermat(p: int, a: int)
    requires IsPrime(p) && 0 < a < p
    ensures ModPow(a, p - 1, p) == 1
  {
    var r := Range(1, p);
    var f := Product(r);
    var w := Pow(a, p - 1);
    ScaledPermutes(p, a);
    ProductPermutation(Scaled(a, p, r), r);
    ScaledProduct(a, p, r);
    ResidueProduct(p, r);
    CancelResidue(p, w, f);
  }

  /** A factor that is not divisible by the prime can be cancelled modulo that prime. */
  lemma CancelResidue(p: int, w: int, f: int)
    requires IsPrime(p) && !Divides(p, f) && f % p == (w * f) % p
    ensures w % p == 1
  {
    var q1, q2 := f / p, (w * f) / p;
    assert f == q1 * p + f % p && w * f == q2 * p + (w * f) % p;
    assert f * (w - 1) == (q2 - q1) * p;
    DividesIntro(p, f * (w - 1), q2 - q1);
    Euclid(p, f, w - 1);
    var k := (w - 1) / p;
    assert w == k * p + 1;
    DivModUnique(w, p, k, 1);
  }

  /** The only square roots of one modulo a prime are 1 and -1. */
  lemma SquareRootOfOne(p: int, x: int)
    requires IsPrime(p) && 0 <= x < p && (x * x) % p == 1
    ensures x == 1 || x == p - 1
  {
    if x != 0 && x != 1 {
      var q := (x * x) / p;
      assert (x - 1) * (x + 1) == q * p;
      DividesIntro(p, (x - 1) * (x + 1), q);
      EuclidResidue(p, x - 1, x + 1);
      DivisorBounds(p, x + 1);
    }
  }
}
