/** Integer exponentiation, and the square-and-multiply loop by which `usize::pow` computes it. */
module Power {
  import opened Ints

  /** Reference definition: b raised to the e-th power. */
  function Pow(b: nat, e: nat): nat
  {
    if e == 0 then 1 else b * Pow(b, e - 1)
  }

  lemma {:induction false} PowSquare(b: nat, n: nat)
    ensures Pow(b * b, n) == Pow(b, 2 * n)
    decreases n
  {
    if n > 0 {
      PowSquare(b, n - 1);
      calc {
        Pow(b * b, n);
        (b * b) * Pow(b * b, n - 1);
        (b * b) * Pow(b, 2 * n - 2);
        b * (b * Pow(b, 2 * n - 2));
        b * Pow(b, 2 * n - 1);
        Pow(b, 2 * n);
      }
    }
  }

  lemma MulAtLeast(a: nat, c: nat)
    requires a >= 1
    ensures a * c >= c
  {
  }

  /** For a base of at least one, a longer product is never smaller. */
  lemma {:induction false} PowMonotone(b: nat, m: nat, n: nat)
    requires b >= 1 && m <= n
    ensures Pow(b, m) <= Pow(b, n)
    decreases n
  {
    if m < n {
      PowMonotone(b, m, n - 1);
      MulAtLeast(b, Pow(b, n - 1));
    }
  }

  /** An odd exponent splits off one factor before the squared base takes over. */
  lemma OddSquare(b: nat, e: nat)
    requires e % 2 == 1
    ensures b * Pow(b * b, e / 2) == Pow(b, e)
  {
    PowSquare(b, e / 2);
    assert e == 2 * (e / 2) + 1;
  }

  /** A positive base and its square never exceed a power of at least two. */
  lemma SquareBelowPow(b: nat, e: nat)
    requires b >= 1 && e >= 2
    ensures b <= Pow(b, e) && b * b <= Pow(b, e)
  {
    PowMonotone(b, 2, e);
    PowMonotone(b, 1, e);
    assert Pow(b, 1) == b;
    assert Pow(b, 2) == b * b;
  }

  /**
   * One round of the square-and-multiply loop keeps `acc * b^e` fixed, and
   * neither product it forms exceeds that value when the base is positive.
   */
  lemma SquareStep(acc: nat, b: nat, e: nat)
    requires e > 1
    ensures e % 2 == 1 ==> (acc * b) * Pow(b * b, e / 2) == acc * Pow(b, e)
    ensures e % 2 == 0 ==> acc * Pow(b * b, e / 2) == acc * Pow(b, e)
    ensures acc >= 1 && b >= 1 ==> b * b <= acc * Pow(b, e) && acc * b <= acc * Pow(b, e)
  {
    var q := Pow(b * b, e / 2);
    if e % 2 == 1 {
      OddSquare(b, e);
      assert (acc * b) * q == acc * (b * q);
    } else {
      PowSquare(b, e / 2);
      assert 2 * (e / 2) == e;
    }
    if acc >= 1 && b >= 1 {
      var p := Pow(b, e);
      SquareBelowPow(b, e);
      MulAtLeast(acc, p);
      assert acc * b <= acc * p;
    }
  }

  /**
   * `base.pow(exp)` on `usize`, by the square-and-multiply loop of Rust's
   * standard library. Every intermediate product is a `usize`, so the
   * verifier checks that none of them overflows once the result fits.
   */
  method PowUsize(base: usize, exp: uint32) returns (r: usize)
    requires Pow(base, exp) < USIZE_LIMIT
    ensures r == Pow(base, exp)
  {
    if exp == 0 {
      return 1;
    }
    var b: usize := base;
    var acc: usize := 1;
    var e: uint32 := exp;
    while e > 1
      invariant 1 <= e <= exp
      invariant acc * Pow(b, e) == Pow(base, exp)
      invariant base == 0 ==> b == 0
      invariant base >= 1 ==> b >= 1 && acc >= 1
      decreases e
    {
      SquareStep(acc, b, e);
      if e % 2 == 1 {
        acc := acc * b;
      }
      e := e / 2;
      b := b * b;
    }
    assert Pow(b, 1) == b;
    r := acc * b;
  }
}
