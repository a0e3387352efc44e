/** Euclid's algorithm as 20250304/11372010_hw2.py writes it, over
    non-negative integers. */
module Euclid {

  /** `d` divides `n`; zero divides only zero. */
  predicate Divides(d: nat, n: nat) {
    if d == 0 then n == 0 else n % d == 0
  }

  /** `g` is a greatest common divisor of `a` and `b`: a common divisor
      that every common divisor divides. */
  ghost predicate IsGcd(g: nat, a: nat, b: nat) {
    && Divides(g, a) && Divides(g, b)
    && forall d: nat :: Divides(d, a) && Divides(d, b) ==> Divides(d, g)
  }

  lemma {:induction false} MulAtLeast(k: int, d: nat)
    requires k >= 1
    ensures k * d >= d
  {
    assert k * d == (k - 1) * d + d;
  }

  /** Euclidean division has one quotient and one remainder. */
  lemma {:induction false} ModUnique(n: int, d: nat, q: int, r: int)
    requires d > 0 && 0 <= r < d && n == q * d + r
    ensures n % d == r
  {
    var q', r' := n / d, n % d;
    assert (q - q') * d == r' - r;
    if q > q' {
      MulAtLeast(q - q', d);
    } else if q < q' {
      MulAtLeast(q' - q, d);
    }
  }

  lemma {:induction false} MulMod(m: int, d: nat)
    requires d > 0
    ensures (m * d) % d == 0
  {
    ModUnique(m * d, d, m, 0);
  }

  /** A common divisor of `a` and `b` divides `a % b`, and a common divisor
      of `b` and `a % b` divides `a`: the loop step keeps the common
      divisors. */
  lemma {:induction false} StepKeepsDivisors(d: nat, a: nat, b: nat)
    requires b > 0
    ensures Divides(d, a) && Divides(d, b) <==> Divides(d, b) && Divides(d, a % b)
  {
    var q := a / b;
    assert a == q * b + a % b;
    if d > 0 && Divides(d, b) {
      var y := b / d;
      assert b == y * d;
      if Divides(d, a) {
        var x := a / d;
        assert a == x * d;
        assert a % b == (x - q * y) * d;
        MulMod(x - q * y, d);
      }
      if Divides(d, a % b) {
        var z := (a % b) / d;
        assert a % b == z * d;
        assert a == (q * y + z) * d;
        MulMod(q * y + z, d);
      }
    }
  }

  /** A positive number's divisors are no larger than it. */
  lemma {:induction false} DivisorAtMost(d: nat, n: nat)
    requires n > 0 && Divides(d, n)
    ensures d <= n
  {
    var k := n / d;
    assert n == k * d;
    MulAtLeast(k, d);
  }

  lemma {:induction false} DividesSelf(n: nat)
    ensures Divides(n, n)
  {
    if n > 0 {
      MulMod(1, n);
    }
  }

  /** Two greatest common divisors of the same pair are equal. */
  lemma {:induction false} GcdUnique(g: nat, h: nat, a: nat, b: nat)
    requires IsGcd(g, a, b) && IsGcd(h, a, b)
    ensures g == h
  {
    assert Divides(g, h) && Divides(h, g);
    if g > 0 && h > 0 {
      DivisorAtMost(g, h);
      DivisorAtMost(h, g);
    }
  }

  /** `gcd(a, b)`: while `b` is not zero, `a, b = b, a % b`; then `a`. */
  method Gcd(a: nat, b: nat) returns (g: nat)
    ensures IsGcd(g, a, b)
    ensures b == 0 ==> g == a
    ensures a == 0 ==> g == b
  {
    var x, y := a, b;
    while y != 0
      invariant forall d: nat :: Divides(d, x) && Divides(d, y) <==> Divides(d, a) && Divides(d, b)
      decreases y
    {
      forall d: nat ensures Divides(d, x) && Divides(d, y) <==> Divides(d, y) && Divides(d, x % y) {
        StepKeepsDivisors(d, x, y);
      }
      x, y := y, x % y;
    }
    g := x;
    DividesSelf(g);
    forall d: nat ensures Divides(d, 0) {
      if d > 0 {
        MulMod(0, d);
      }
    }
    assert IsGcd(g, a, b);
    if b == 0 {
      DividesSelf(a);
      assert IsGcd(a, a, b);
      GcdUnique(g, a, a, b);
    }
    if a == 0 {
      DividesSelf(b);
      assert IsGcd(b, a, b);
      GcdUnique(g, b, a, b);
    }
  }

  /** The two calls the script makes. */
  method Examples() returns (first: nat, second: nat)
    ensures first == 7 && second == 11
  {
    first := Gcd(7, 49);
    assert IsGcd(7, 7, 49) by {
      DividesSelf(7);
      MulMod(7, 7);
    }
    GcdUnique(first, 7, 7, 49);
    second := Gcd(11, 121);
    assert IsGcd(11, 11, 121) by {
      DividesSelf(11);
      MulMod(11, 11);
    }
    GcdUnique(second, 11, 11, 121);
  }
}
