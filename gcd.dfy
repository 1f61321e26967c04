/**
 * Euclid's greatest common divisor, as `gcd` in src/lib.rs (src/algorithms/mod.rs and
 * src/algorithms.rs hold the same function word for word). The loop replaces `(a, b)` by
 * `(b, a % b)` with Rust's truncating remainder until `b` is zero, so it is defined for every
 * pair of integers; with a negative argument the result can be negative, and its magnitude is
 * still the greatest common divisor.
 */
module Gcd {
  import opened Arith

  /** `g` is the greatest common divisor of `a` and `b`: a non-negative common divisor that
      every common divisor divides. */
  ghost predicate IsGcd(g: int, a: int, b: int) {
    g >= 0 && Divides(g, a) && Divides(g, b) &&
    forall c :: Divides(c, a) && Divides(c, b) ==> Divides(c, g)
  }

  /** The greatest common divisor of two naturals, by Euclid's recursion. Its contract says
      it is a common divisor; `GcdOfGreatest` says every common divisor divides it. */
  function GcdOf(a: nat, b: nat): (g: nat)
    ensures Divides(g, a) && Divides(g, b)
    decreases b
  {
    if b == 0 then
      assert Divides(a, a) by { DividesIntro(a, a, 1); }
      assert Divides(a, 0) by { DividesIntro(a, 0, 0); }
      a
    else
      var g := GcdOf(b, a % b);
      assert a == (a % b) - (-(a / b)) * b;
      DividesCombination(g, a % b, b, -(a / b));
      g
  }

  lemma {:induction false} GcdOfGreatest(a: nat, b: nat, c: int)
    requires Divides(c, a) && Divides(c, b)
    ensures Divides(c, GcdOf(a, b))
    decreases b
  {
    if b > 0 {
      assert a % b == a - (a / b) * b;
      DividesCombination(c, a, b, a / b);
      GcdOfGreatest(b, a % b, c);
    }
  }

  lemma GcdOfIsGcd(a: nat, b: nat)
    ensures IsGcd(GcdOf(a, b), a, b)
  {
    forall c | Divides(c, a) && Divides(c, b)
      ensures Divides(c, GcdOf(a, b))
    {
      GcdOfGreatest(a, b, c);
    }
  }

  /** Replacing `x` by its remainder modulo `y` keeps the greatest common divisor. */
  lemma GcdOfRemainder(x: int, y: int)
    requires y != 0
    ensures GcdOf(Abs(y), Abs(TRem(x, y))) == GcdOf(Abs(x), Abs(y))
  {
    var r := TRem(x, y);
    var g := GcdOf(Abs(y), Abs(r));
    var k := DividesElim(y, x - r);
    GcdOfIsGcd(Abs(y), Abs(r));
    GcdOfIsGcd(Abs(x), Abs(y));
    IsGcdShift(g, x, y, r, k);
    IsGcdUnique(g, GcdOf(Abs(x), Abs(y)), Abs(x), Abs(y));
  }

  /** `x` and `x - k * y` have the same common divisors with `y`. */
  lemma CommonDivisorShift(c: int, x: int, y: int, r: int, k: int)
    requires x - r == k * y && Divides(c, y)
    ensures Divides(c, x) <==> Divides(c, r)
  {
    if Divides(c, x) {
      DividesCombination(c, x, y, k);
    }
    if Divides(c, r) {
      DividesCombination(c, r, y, -k);
      assert r - (-k) * y == x;
    }
  }

  lemma IsGcdShift(g: int, x: int, y: int, r: int, k: int)
    requires x - r == k * y && IsGcd(g, Abs(y), Abs(r))
    ensures IsGcd(g, Abs(x), Abs(y))
  {
    DividesAbs(g, y);
    DividesAbs(g, r);
    CommonDivisorShift(g, x, y, r, k);
    DividesAbs(g, x);
    forall c | Divides(c, Abs(x)) && Divides(c, Abs(y))
      ensures Divides(c, g)
    {
      DividesAbs(c, x);
      DividesAbs(c, y);
      CommonDivisorShift(c, x, y, r, k);
      DividesAbs(c, r);
    }
  }

  /** Only one number is the greatest common divisor. */
  lemma IsGcdUnique(g: int, h: int, a: int, b: int)
    requires IsGcd(g, a, b) && IsGcd(h, a, b)
    ensures g == h
  {
    assert Divides(g, h) && Divides(h, g);
    if g != 0 && h != 0 {
      DivisorBounds(g, h);
      DivisorBounds(h, g);
    }
  }

  /** `gcd(a, b)` of src/lib.rs. */
  method Gcd(a: int, b: int) returns (g: int)
    ensures Abs(g) == GcdOf(Abs(a), Abs(b))
    ensures a >= 0 && b >= 0 ==> g == GcdOf(a, b)
    ensures Divides(g, a) && Divides(g, b)
    ensures forall c :: Divides(c, a) && Divides(c, b) ==> Divides(c, g)
    ensures b == 0 ==> g == a
  {
    var x, y := a, b;
    while y != 0
      invariant GcdOf(Abs(x), Abs(y)) == GcdOf(Abs(a), Abs(b))
      invariant a >= 0 && b >= 0 ==> x >= 0 && y >= 0
      invariant b == 0 ==> x == a && y == 0
      decreases Abs(y)
    {
      GcdOfRemainder(x, y);
      var remainder := TRem(x, y);
      x := y;
      y := remainder;
    }
    g := x;
    GcdOfIsGcd(Abs(a), Abs(b));
    AbsGcdFacts(g, a, b);
  }

  lemma AbsGcdFacts(g: int, a: int, b: int)
    requires Abs(g) == GcdOf(Abs(a), Abs(b))
    ensures Divides(g, a) && Divides(g, b)
    ensures forall c :: Divides(c, a) && Divides(c, b) ==> Divides(c, g)
  {
    GcdOfIsGcd(Abs(a), Abs(b));
    DividesAbs(g, a);
    DividesAbs(g, b);
    forall c | Divides(c, a) && Divides(c, b)
      ensures Divides(c, g)
    {
      DividesAbs(c, a);
      DividesAbs(c, b);
      DividesAbs(c, g);
    }
  }

  /** `gcd(0, b) == b` for positive `b`: the value the rho splitter sees when its two cursors
      meet. */
  lemma GcdZeroLeft(b: nat)
    requires b > 0
    ensures GcdOf(0, b) == b
  {
  }
}
