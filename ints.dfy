/** Extended Euclid and modular exponentiation (math/ints.go), on Go's
    truncating `/` and `%`. */
module Ints {
  import opened Algebra

  /** d divides a. */
  ghost predicate Divides(d: int, a: int) {
    exists k :: a == d * k
  }

  /** x and y are congruent modulo m. */
  ghost predicate Cong(x: int, y: int, m: int) {
    Divides(m, x - y)
  }

  /** One step back up the recursion keeps the Bezout identity. */
  lemma BezoutStep(a: int, b: int, q: int, rm: int, d: int, x: int, y: int)
    requires a == b * q + rm && b * x + rm * y == d
    ensures a * y + b * (x - q * y) == d
  {
    calc {
      a * y + b * (x - q * y);
      (b * q + rm) * y + b * x - b * (q * y);
      { assert (b * q + rm) * y == b * q * y + rm * y; }
      b * x + rm * y;
    }
  }

  /** ExtGcd(a, b) = (d, x, y): recursion on (b, a % b); the coefficients
      always satisfy a*x + b*y == d, and d is non-negative on non-negative
      arguments. */
  function ExtGcd(a: int, b: int): (r: (int, int, int))
    ensures a * r.1 + b * r.2 == r.0
    ensures b == 0 ==> r == (a, 1, 0)
    ensures a >= 0 && b >= 0 ==> r.0 >= 0
    decreases Abs(b)
  {
    if b == 0 then (a, 1, 0)
    else
      GoDivision(a, b);
      var rest := ExtGcd(b, GoRem(a, b));
      var q := GoQuo(a, b);
      BezoutStep(a, b, q, GoRem(a, b), rest.0, rest.1, rest.2);
      (rest.0, rest.2, rest.1 - q * rest.2)
  }

  /** d = a*x + b*y with c dividing a and b: c divides d. */
  lemma DividesCombination(c: int, a: int, b: int, x: int, y: int)
    requires Divides(c, a) && Divides(c, b)
    ensures Divides(c, a * x + b * y)
  {
    var ka :| a == c * ka;
    var kb :| b == c * kb;
    assert a * x + b * y == c * (ka * x + kb * y) by {
      assert a * x == c * (ka * x);
      assert b * y == c * (kb * y);
    }
  }

  /** On non-negative arguments the d of ExtGcd divides both. */
  lemma {:induction false} ExtGcdDivides(a: int, b: int)
    requires a >= 0 && b >= 0
    ensures Divides(ExtGcd(a, b).0, a) && Divides(ExtGcd(a, b).0, b)
    decreases b
  {
    var d := ExtGcd(a, b).0;
    if b == 0 {
      assert a == d * 1 && b == d * 0;
    } else {
      GoDivision(a, b);
      var rm := GoRem(a, b);
      ExtGcdDivides(b, rm);
      assert d == ExtGcd(b, rm).0;
      DividesCombination(d, b, rm, GoQuo(a, b), 1);
    }
  }

  /** Every common divisor of a and b divides the d of ExtGcd: together with
      ExtGcdDivides, d is the greatest common divisor. */
  lemma ExtGcdGreatest(a: int, b: int, c: int)
    requires Divides(c, a) && Divides(c, b)
    ensures Divides(c, ExtGcd(a, b).0)
  {
    var r := ExtGcd(a, b);
    DividesCombination(c, a, b, r.1, r.2);
  }

  /** Go's remainder is congruent to its dividend. */
  lemma CongRem(x: int, m: int)
    requires m != 0
    ensures Cong(GoRem(x, m), x, m)
  {
    GoDivision(x, m);
    assert GoRem(x, m) - x == m * -GoQuo(x, m);
  }

  lemma CongMul(x1: int, y1: int, x2: int, y2: int, m: int)
    requires Cong(x1, y1, m) && Cong(x2, y2, m)
    ensures Cong(x1 * x2, y1 * y2, m)
  {
    var k1 :| x1 - y1 == m * k1;
    var k2 :| x2 - y2 == m * k2;
    calc {
      x1 * x2 - y1 * y2;
      (y1 + m * k1) * (y2 + m * k2) - y1 * y2;
      { assert (y1 + m * k1) * (y2 + m * k2) == y1 * y2 + y1 * (m * k2) + (m * k1) * (y2 + m * k2); }
      y1 * (m * k2) + (m * k1) * (y2 + m * k2);
      m * (y1 * k2 + k1 * (y2 + m * k2));
    }
  }

  lemma CongTrans(x: int, y: int, z: int, m: int)
    requires Cong(x, y, m) && Cong(y, z, m)
    ensures Cong(x, z, m)
  {
    var k1 :| x - y == m * k1;
    var k2 :| y - z == m * k2;
    assert x - z == m * (k1 + k2);
  }

  lemma {:induction false} PowerCong(x: int, y: int, h: nat, m: int)
    requires Cong(x, y, m)
    ensures Cong(Power(x, h), Power(y, h), m)
  {
    if h == 0 {
      assert Power(x, h) - Power(y, h) == m * 0;
    } else {
      PowerCong(x, y, h - 1, m);
      CongMul(x, y, Power(x, h - 1), Power(y, h - 1), m);
    }
  }

  /** A remainder in [0, m) congruent to x is x % m. */
  lemma CongCanonical(r: int, x: int, m: int)
    requires 0 <= r < m && Cong(r, x, m)
    ensures r == x % m
  {
    var k :| r - x == m * k;
    var q, r2 := x / m, x % m;
    assert x == m * q + r2;
    assert r - r2 == m * k + m * q == m * (k + q);
    SmallMultiple(m, k + q);
  }

  /** The only multiple of m strictly between -m and m is 0. */
  lemma SmallMultiple(m: int, t: int)
    requires m > 0 && -m < m * t < m
    ensures t == 0
  {
    assert t >= 1 ==> m * t >= m;
    assert t <= -1 ==> m * t <= -m;
  }

  /** The loop body of PowMod keeps res * b^k congruent to a^n. */
  lemma PowModStep(res: int, b: int, k: nat, m: int, target: int)
    requires m != 0 && k > 0 && Cong(res * Power(b, k), target, m)
    ensures var res' := if k % 2 == 1 then GoRem(res * b, m) else res;
            Cong(res' * Power(GoRem(b * b, m), k / 2), target, m)
  {
    var res' := if k % 2 == 1 then GoRem(res * b, m) else res;
    var bit := if k % 2 == 1 then b else 1;
    PowerHalf(b, k);
    assert res * Power(b, k) == (res * bit) * Power(b * b, k / 2);
    assert Cong(res', res * bit, m) by {
      if k % 2 == 1 {
        CongRem(res * b, m);
      } else {
        assert res' - res * bit == m * 0;
      }
    }
    CongRem(b * b, m);
    PowerCong(GoRem(b * b, m), b * b, k / 2, m);
    CongMul(res', res * bit, Power(GoRem(b * b, m), k / 2), Power(b * b, k / 2), m);
    CongTrans(res' * Power(GoRem(b * b, m), k / 2), res * Power(b, k), target, m);
  }

  /** PowMod(a, n, m): square-and-multiply with a reduction after every
      product. The result is congruent to a^n and smaller than m in
      magnitude; on non-negative a and positive m it is a^n % m. */
  method PowMod(a: int, n: int, m: int) returns (res: int)
    requires m != 0
    ensures Abs(res) < Abs(m)
    ensures n >= 0 ==> Cong(res, Power(a, n), m)
    ensures n <= 0 ==> res == GoRem(1, m)
    ensures n >= 0 && a >= 0 && m > 0 ==> res == Power(a, n) % m
  {
    GoDivision(1, m);
    res := GoRem(1, m);
    GoDivision(a, m);
    var b := GoRem(a, m);
    var k := n;
    if n >= 0 {
      CongRem(1, m);
      CongRem(a, m);
      PowerCong(b, a, n, m);
      CongMul(res, 1, Power(b, n), Power(a, n), m);
    }
    while k > 0
      invariant Abs(res) < Abs(m)
      invariant n >= 0 ==> k >= 0 && Cong(res * Power(b, k), Power(a, n), m)
      invariant n <= 0 ==> k == n && res == GoRem(1, m)
      invariant a >= 0 ==> res >= 0 && b >= 0
      decreases k
    {
      PowModStep(res, b, k, m, Power(a, n));
      if k % 2 == 1 {
        GoDivision(res * b, m);
        res := GoRem(res * b, m);
      }
      k := k / 2;
      GoDivision(b * b, m);
      b := GoRem(b * b, m);
    }
    if n >= 0 && a >= 0 && m > 0 {
      assert res * Power(b, k) == res;
      CongCanonical(res, Power(a, n), m);
    }
  }
}
