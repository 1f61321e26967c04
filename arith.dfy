/**
 * Exact integer arithmetic that the factorization engine takes from the GMP-backed `rug`
 * crate, stated as mathematical functions: divisibility, primality, powers, the modular power
 * of `pow_mod`, the floor square root of `root(2)`, the perfect-square test of
 * `is_perfect_square`, the truncating remainder of Rust's `%`, and the product of a list of
 * factors. Dafny's own `/` and `%` are Euclidean; where the source divides a possibly negative
 * number, `TRem` stands for its truncating remainder.
 */
module Arith {

  function Abs(x: int): nat {
    if x < 0 then -x else x
  }

  /** `d` divides `n`; zero divides only zero. */
  predicate Divides(d: int, n: int) {
    if d == 0 then n == 0 else n % d == 0
  }

  /** `n` is a prime number: at least 2 and without a divisor strictly between 1 and itself. */
  predicate IsPrime(n: int) {
    n >= 2 && forall d :: 2 <= d < n ==> n % d != 0
  }

  function Pow(a: int, e: nat): int {
    if e == 0 then 1 else a * Pow(a, e - 1)
  }

  function Pow2(e: nat): (r: nat)
    ensures r >= 1
  {
    if e == 0 then 1 else 2 * Pow2(e - 1)
  }

  /** `pow_mod` with a positive modulus: `a^e mod n`. */
  function ModPow(a: int, e: nat, n: int): int
    requires n > 0
  {
    Pow(a, e) % n
  }

  /** The remainder of Rust's (and rug's) `%`: division truncates toward zero, so the
      remainder takes the sign of the dividend. */
  function TRem(a: int, b: int): (r: int)
    requires b != 0
    ensures Abs(r) == Abs(a) % Abs(b)
    ensures a >= 0 ==> r >= 0
    ensures a < 0 ==> r <= 0
    ensures Divides(b, a - r)
  {
    var e := a % b;
    TRemFacts(a, b);
    if a < 0 && e != 0 then e - Abs(b) else e
  }

  /** The product of a list of factors; the empty list multiplies to 1. */
  function Product(s: seq<int>): int {
    if s == [] then 1 else s[0] * Product(s[1..])
  }

  /** A non-zero `m` written as `2^s * d` with `d` odd. */
  function TwoAdic(m: int): (r: (nat, int))
    requires m != 0
    ensures Pow2(r.0) * r.1 == m && r.1 % 2 == 1
    ensures m > 0 ==> r.1 > 0
    decreases Abs(m)
  {
    if m % 2 == 1 then
      (0, m)
    else
      var (s, d) := TwoAdic(m / 2);
      assert Pow2(s + 1) * d == 2 * (Pow2(s) * d);
      (s + 1, d)
  }

  /** The decomposition `2^s * d` with `d` odd is unique. */
  lemma {:induction false} TwoAdicUnique(m: int, s: nat, d: int)
    requires Pow2(s) * d == m && d % 2 == 1
    ensures m != 0 && TwoAdic(m) == (s, d)
    decreases s
  {
    if s > 0 {
      var p := Pow2(s - 1);
      var half := p * d;
      MulAssoc(2, p, d);
      TwoAdicUnique(half, s - 1, d);
      DivModUnique(m, 2, half, 0);
    }
  }

  /** rug's `root(2)` on a non-negative number: the floor of the square root. */
  function Isqrt(n: nat): (r: nat)
    ensures r * r <= n < (r + 1) * (r + 1)
  {
    if n < 4 then
      (if n == 0 then 0 else 1)
    else
      var q := Isqrt(n / 4);
      IsqrtStep(n, q);
      var h := 2 * q;
      if (h + 1) * (h + 1) <= n then h + 1 else h
  }

  /** rug's `is_perfect_square`: negative numbers are never squares. */
  predicate IsSquare(x: int) {
    x >= 0 && Isqrt(x) * Isqrt(x) == x
  }

  // ---------------------------------------------------------------------------------------
  // Division and remainder

  /** Dafny's quotient and remainder are the unique pair with a remainder in `[0, |m|)`. */
  lemma DivModUnique(x: int, m: int, q: int, r: int)
    requires m != 0 && x == q * m + r && 0 <= r < Abs(m)
    ensures x / m == q && x % m == r
  {
    var q0, r0 := x / m, x % m;
    assert (q - q0) * m == r0 - r;
    if q - q0 != 0 {
      MulAtLeast(q - q0, m);
    }
  }

  lemma MulAtLeast(k: int, m: int)
    requires k != 0
    ensures Abs(k * m) >= Abs(m)
  {
    var a, b := Abs(k), Abs(m);
    MulAbs(k, m);
    assert a * b == (a - 1) * b + b;
    NonNegMul(a - 1, b);
  }

  lemma NonNegMul(x: nat, y: nat)
    ensures x * y >= 0
  {
  }

  lemma MulAbs(x: int, y: int)
    ensures Abs(x * y) == Abs(x) * Abs(y)
  {
    if x < 0 && y >= 0 {
      assert x * y == -(Abs(x) * y);
      NonNegMul(Abs(x), y);
    } else if x >= 0 && y < 0 {
      assert x * y == -(x * Abs(y));
      NonNegMul(x, Abs(y));
    } else if x < 0 && y < 0 {
      assert x * y == Abs(x) * Abs(y);
      NonNegMul(Abs(x), Abs(y));
    } else {
      NonNegMul(x, y);
    }
  }

  /** The facts behind `TRem`: the truncated remainder of a negative dividend is the Euclidean
      one shifted down by `|b|`, and either way the difference from `a` is a multiple of `b`. */
  lemma TRemFacts(a: int, b: int)
    requires b != 0
    ensures var r := if a < 0 && a % b != 0 then a % b - Abs(b) else a % b;
      Abs(r) == Abs(a) % Abs(b) && Divides(b, a - r)
  {
    TRemParts(a, b, a / b, a % b);
  }

  /** `TRemFacts` for the quotient `q` and remainder `e` of `a` by `b`. */
  lemma TRemParts(a: int, b: int, q: int, e: int)
    requires b != 0 && a == q * b + e && 0 <= e < Abs(b)
    ensures var r := if a < 0 && e != 0 then e - Abs(b) else e;
      Abs(r) == Abs(a) % Abs(b) && Divides(b, a - r)
  {
    var qa := if b > 0 then q else -q;
    SignFlip(q, b);
    TRemMagnitude(a, Abs(b), qa, e);
    TRemDivides(a, b, q, e);
  }

  lemma SignFlip(q: int, b: int)
    ensures q * b == (if b > 0 then q else -q) * Abs(b)
  {
  }

  /** The magnitude of the truncated remainder of `a = qa * m + e`. */
  lemma TRemMagnitude(a: int, m: int, qa: int, e: int)
    requires m > 0 && a == qa * m + e && 0 <= e < m
    ensures Abs(a) % m == if a < 0 && e != 0 then m - e else e
  {
    if a >= 0 {
      DivModUnique(a, m, qa, e);
    } else {
      NegMul(qa, m);
      if e == 0 {
        DivModUnique(-a, m, -qa, 0);
      } else {
        MulSucc(-qa - 1, m);
        DivModUnique(-a, m, -qa - 1, m - e);
      }
    }
  }

  /** Both candidate remainders of `a = q * b + e` differ from `a` by a multiple of `b`. */
  lemma TRemDivides(a: int, b: int, q: int, e: int)
    requires b != 0 && a == q * b + e
    ensures Divides(b, a - e) && Divides(b, a - (e - Abs(b)))
  {
    DividesIntro(b, a - e, q);
    if b > 0 {
      MulSucc(q, b);
      DividesIntro(b, a - (e - Abs(b)), q + 1);
    } else {
      MulSucc(q - 1, b);
      DividesIntro(b, a - (e - Abs(b)), q - 1);
    }
  }

  lemma NegMul(x: int, y: int)
    ensures (-x) * y == -(x * y)
  {
  }

  lemma MulSucc(x: int, y: int)
    ensures (x + 1) * y == x * y + y
  {
  }

  /** The Euclidean remainder depends only on the magnitude of the divisor. */
  lemma ModAbs(a: int, b: int)
    requires b != 0
    ensures a % b == a % Abs(b)
  {
    if b < 0 {
      DivModUnique(a, Abs(b), -(a / b), a % b);
    }
  }

  lemma ModAddMultiple(k: int, b: int, n: int)
    requires n > 0
    ensures (k * n + b) % n == b % n
  {
    var qb := b / n;
    assert k * n + b == (k + qb) * n + b % n;
    DivModUnique(k * n + b, n, k + qb, b % n);
  }

  lemma ModMul(x: int, y: int, n: int)
    requires n > 0
    ensures (x * y) % n == ((x % n) * (y % n)) % n
  {
    ModMulParts(x, y, n, x / n, x % n, y / n, y % n);
  }

  lemma ModMulParts(x: int, y: int, n: int, qx: int, rx: int, qy: int, ry: int)
    requires n > 0 && x == qx * n + rx && y == qy * n + ry
    ensures (x * y) % n == (rx * ry) % n
  {
    ProductOfSums(qx, rx, qy, ry, n);
    ModAddMultiple(qx * qy * n + qx * ry + rx * qy, rx * ry, n);
  }

  lemma ProductOfSums(qx: int, rx: int, qy: int, ry: int, n: int)
    ensures (qx * n + rx) * (qy * n + ry) == (qx * qy * n + qx * ry + rx * qy) * n + rx * ry
  {
  }

  lemma ModOfMod(x: int, n: int)
    requires n > 0
    ensures (x % n) % n == x % n
  {
    DivModUnique(x % n, n, 0, x % n);
  }

  // ---------------------------------------------------------------------------------------
  // Divisibility

  lemma DividesIntro(d: int, n: int, k: int)
    requires n == d * k
    ensures Divides(d, n)
  {
    if d != 0 {
      DivModUnique(n, d, k, 0);
    }
  }

  /** The cofactor of a divisor. */
  lemma DividesElim(d: int, n: int) returns (k: int)
    requires Divides(d, n)
    ensures n == k * d
  {
    if d == 0 {
      k := 0;
    } else {
      k := n / d;
    }
  }

  lemma DividesMul(d: int, x: int, y: int)
    requires Divides(d, x)
    ensures Divides(d, x * y)
  {
    if d != 0 {
      assert x * y == d * ((x / d) * y);
      DividesIntro(d, x * y, (x / d) * y);
    }
  }

  lemma DividesTrans(a: int, b: int, c: int)
    requires Divides(a, b) && Divides(b, c)
    ensures Divides(a, c)
  {
    if a != 0 && b != 0 {
      assert c == a * ((b / a) * (c / b));
      DividesIntro(a, c, (b / a) * (c / b));
    }
  }

  /** A common divisor of `x` and `y` divides `x - k * y`. */
  lemma DividesCombination(d: int, x: int, y: int, k: int)
    requires Divides(d, x) && Divides(d, y)
    ensures Divides(d, x - k * y)
  {
    if d != 0 {
      assert x - k * y == d * (x / d - k * (y / d));
      DividesIntro(d, x - k * y, x / d - k * (y / d));
    }
  }

  /** Divisibility ignores signs. */
  lemma DividesAbs(d: int, n: int)
    ensures Divides(d, n) <==> Divides(Abs(d), Abs(n))
  {
    if Divides(d, n) && d != 0 {
      var k := n / d;
      assert n == d * k;
      assert Abs(n) == Abs(d) * Abs(k);
      DividesIntro(Abs(d), Abs(n), Abs(k));
    }
    if Divides(Abs(d), Abs(n)) && d != 0 {
      var k := Abs(n) / Abs(d);
      assert Abs(n) == Abs(d) * k;
      var k' := if (d < 0) == (n < 0) then k else -k;
      assert n == d * k';
      DividesIntro(d, n, k');
    }
  }

  /** A positive number's non-negative divisors lie between 1 and the number itself. */
  lemma DivisorBounds(d: int, n: int)
    requires n > 0 && d >= 0 && Divides(d, n)
    ensures 1 <= d <= n
  {
    var k := n / d;
    assert n == d * k;
    MulAtLeast(k, d);
    MulAbs(d, k);
  }

  // ---------------------------------------------------------------------------------------
  // Powers

  lemma {:induction false} PowAdd(a: int, e1: nat, e2: nat)
    ensures Pow(a, e1 + e2) == Pow(a, e1) * Pow(a, e2)
  {
    if e1 > 0 {
      PowAdd(a, e1 - 1, e2);
      assert Pow(a, e1 + e2) == a * Pow(a, e1 - 1 + e2);
    }
  }

  lemma {:induction false} Pow2Add(e1: nat, e2: nat)
    ensures Pow2(e1 + e2) == Pow2(e1) * Pow2(e2)
  {
    if e1 > 0 {
      Pow2Add(e1 - 1, e2);
      assert Pow2(e1 + e2) == 2 * Pow2(e1 - 1 + e2);
    }
  }

  /** Squaring a modular power doubles its exponent: one squaring step of Miller–Rabin. */
  lemma ModPowSquare(a: int, e: nat, n: int)
    requires n > 0
    ensures ModPow(ModPow(a, e, n), 2, n) == ModPow(a, 2 * e, n)
  {
    var p := Pow(a, e);
    PowAdd(a, e, e);
    assert Pow(a, 2 * e) == p * p;
    var x := p % n;
    PowTwo(x);
    ModMul(p, p, n);
    ModOfMod(p, n);
  }

  lemma PowTwo(x: int)
    ensures Pow(x, 2) == x * x
  {
    assert Pow(x, 2) == x * Pow(x, 1);
  }

  // ---------------------------------------------------------------------------------------
  // Square roots

  lemma IsqrtStep(n: nat, q: nat)
    requires n >= 4 && q * q <= n / 4 < (q + 1) * (q + 1)
    ensures (2 * q) * (2 * q) <= n < (2 * q + 2) * (2 * q + 2)
  {
    assert (2 * q) * (2 * q) == 4 * (q * q);
    assert n / 4 + 1 <= (q + 1) * (q + 1);
    assert (2 * q + 2) * (2 * q + 2) == 4 * ((q + 1) * (q + 1));
  }

  lemma SquareMonotone(x: nat, y: nat)
    requires x <= y
    ensures x * x <= y * y
  {
    assert y * y - x * x == (y - x) * (y + x);
  }

  /** The floor square root is the only `r` with `r^2 <= n < (r + 1)^2`. */
  lemma IsqrtUnique(n: nat, r: nat)
    requires r * r <= n < (r + 1) * (r + 1)
    ensures Isqrt(n) == r
  {
    var s := Isqrt(n);
    if s < r {
      SquareMonotone(s + 1, r);
    } else if r < s {
      SquareMonotone(r + 1, s);
    }
  }

  lemma SquareIsSquare(b: nat)
    ensures Isqrt(b * b) == b && IsSquare(b * b)
  {
    assert (b + 1) * (b + 1) == b * b + 2 * b + 1;
    IsqrtUnique(b * b, b);
  }

  // ---------------------------------------------------------------------------------------
  // Products

  lemma {:induction false} ProductAppend(a: seq<int>, b: seq<int>)
    ensures Product(a + b) == Product(a) * Product(b)
  {
    if a != [] {
      assert (a + b)[0] == a[0] && (a + b)[1..] == a[1..] + b;
      ProductAppend(a[1..], b);
    } else {
      assert a + b == b;
    }
  }

  /** Reordering a list does not change its product. */
  lemma {:induction false} ProductPermutation(s: seq<int>, t: seq<int>)
    requires multiset(s) == multiset(t)
    ensures Product(s) == Product(t)
    decreases |s|
  {
    if s != [] {
      assert s[0] in multiset(t);
      var i :| 0 <= i < |t| && t[i] == s[0];
      var rest := t[..i] + t[i + 1..];
      MultisetRemove(t, i);
      assert s == [s[0]] + s[1..];
      assert multiset(s[1..]) == multiset(s) - multiset{s[0]};
      ProductPermutation(s[1..], rest);
      ProductRemove(t, i);
    }
  }

  lemma MultisetRemove(t: seq<int>, i: int)
    requires 0 <= i < |t|
    ensures multiset(t[..i] + t[i + 1..]) == multiset(t) - multiset{t[i]}
  {
    assert t == t[..i] + ([t[i]] + t[i + 1..]);
  }

  lemma ProductRemove(t: seq<int>, i: int)
    requires 0 <= i < |t|
    ensures Product(t) == t[i] * Product(t[..i] + t[i + 1..])
  {
    var a, x, c := t[..i], t[i], t[i + 1..];
    assert t == a + ([x] + c);
    ProductAppend(a, [x] + c);
    ProductCons(x, c);
    ProductAppend(a, c);
    MulSwap(Product(a), x, Product(c));
  }

  lemma ProductCons(x: int, c: seq<int>)
    ensures Product([x] + c) == x * Product(c)
  {
    assert ([x] + c)[1..] == c;
  }

  lemma MulAssoc(a: int, b: int, c: int)
    ensures (a * b) * c == a * (b * c)
  {
  }

  lemma MulSwap(a: int, x: int, c: int)
    ensures a * (x * c) == x * (a * c)
  {
  }

  /** Each factor of a list of positive numbers is at most the product of the list. */
  lemma {:induction false} FactorAtMostProduct(s: seq<int>, i: int)
    requires forall j :: 0 <= j < |s| ==> s[j] >= 1
    requires 0 <= i < |s|
    ensures 1 <= s[i] <= Product(s)
  {
    ProductPositive(s[1..]);
    if i == 0 {
      MulAtLeast(Product(s[1..]), s[0]);
    } else {
      FactorAtMostProduct(s[1..], i - 1);
      MulAtLeast(s[0], Product(s[1..]));
    }
  }

  lemma {:induction false} ProductPositive(s: seq<int>)
    requires forall j :: 0 <= j < |s| ==> s[j] >= 1
    ensures Product(s) >= 1
  {
    if s != [] {
      ProductPositive(s[1..]);
      MulAtLeast(s[0], Product(s[1..]));
    }
  }

  /** The list of `count` copies of `x`. */
  function Repeat(x: int, count: nat): (r: seq<int>)
    ensures |r| == count && forall i :: 0 <= i < count ==> r[i] == x
  {
    if count == 0 then [] else Repeat(x, count - 1) + [x]
  }

  lemma {:induction false} Pow2IsPow(e: nat)
    ensures Pow2(e) == Pow(2, e)
  {
    if e > 0 {
      Pow2IsPow(e - 1);
    }
  }

  lemma {:induction false} ProductRepeat(x: int, count: nat)
    ensures Product(Repeat(x, count)) == Pow(x, count)
  {
    if count > 0 {
      ProductRepeat(x, count - 1);
      ProductAppend(Repeat(x, count - 1), [x]);
      PowAdd(x, count - 1, 1);
    }
  }
}
