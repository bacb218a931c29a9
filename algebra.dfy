/** Shared vocabulary: an optional value, monoid laws, the left fold that every
    range structure of the library computes, and Go's truncating integer
    division, which Dafny's Euclidean division does not match on negatives. */
module Algebra {

  /** Stands in for a Go value that may be nil. */
  datatype Option<T> = None | Some(value: T)

  /** The trigger is the right-nested form: folds are left-nested, so the
      left-nested form would fire on every unfolding of a fold. */
  ghost predicate Associative<T(!new)>(op: (T, T) -> T) {
    forall x, y, z {:trigger op(x, op(y, z)), op(x, y)} :: op(op(x, y), z) == op(x, op(y, z))
  }

  ghost predicate Neutral<T(!new)>(op: (T, T) -> T, e: T) {
    forall x :: op(e, x) == x && op(x, e) == x
  }

  /** The caller's promise about `op` and `e`; none of the structures checks it. */
  ghost predicate IsMonoid<T(!new)>(op: (T, T) -> T, e: T) {
    Associative(op) && Neutral(op, e)
  }

  /** Left-to-right fold of `op` over `s`, starting from `e`:
      op(...op(op(e, s[0]), s[1])..., s[|s|-1]). This is the value the loops
      `res = op(res, s[i])` of the source accumulate. */
  function Fold<T>(op: (T, T) -> T, e: T, s: seq<T>): T
    decreases |s|
  {
    if |s| == 0 then e else op(Fold(op, e, s[..|s| - 1]), s[|s| - 1])
  }

  /** Folding a concatenation is combining the two folds. */
  lemma {:induction false} FoldAppend<T(!new)>(op: (T, T) -> T, e: T, a: seq<T>, b: seq<T>)
    requires IsMonoid(op, e)
    ensures Fold(op, e, a + b) == op(Fold(op, e, a), Fold(op, e, b))
  {
    if |b| == 0 {
      assert a + b == a;
    } else {
      var b' := b[..|b| - 1];
      assert (a + b)[..|a + b| - 1] == a + b';
      FoldAppend(op, e, a, b');
    }
  }

  /** Folding s[i..k] is combining the folds of s[i..j] and s[j..k]. */
  lemma FoldSplit<T(!new)>(op: (T, T) -> T, e: T, s: seq<T>, i: int, j: int, k: int)
    requires IsMonoid(op, e)
    requires 0 <= i <= j <= k <= |s|
    ensures Fold(op, e, s[i..k]) == op(Fold(op, e, s[i..j]), Fold(op, e, s[j..k]))
  {
    assert s[i..k] == s[i..j] + s[j..k];
    FoldAppend(op, e, s[i..j], s[j..k]);
  }

  /** An accumulator extended by the folds of two adjacent segments is the
      accumulator extended by the fold of their union. */
  lemma FoldExtend<T(!new)>(op: (T, T) -> T, e: T, acc: T, s: seq<T>, i: int, j: int, k: int)
    requires IsMonoid(op, e)
    requires 0 <= i <= j <= k <= |s|
    ensures op(op(acc, Fold(op, e, s[i..j])), Fold(op, e, s[j..k])) == op(acc, Fold(op, e, s[i..k]))
  {
    FoldSplit(op, e, s, i, j, k);
  }

  /** A fold started from an accumulator is the accumulator combined with
      the fold started from the neutral element. */
  lemma {:induction false} FoldFrom<T(!new)>(op: (T, T) -> T, e: T, acc: T, s: seq<T>)
    requires IsMonoid(op, e)
    ensures Fold(op, acc, s) == op(acc, Fold(op, e, s))
    decreases |s|
  {
    if |s| > 0 {
      FoldFrom(op, e, acc, s[..|s| - 1]);
    }
  }

  /** One more element on the right of a fold. */
  lemma FoldSnoc<T>(op: (T, T) -> T, e: T, s: seq<T>, x: T)
    ensures Fold(op, e, s + [x]) == op(Fold(op, e, s), x)
  {
    assert (s + [x])[..|s + [x]| - 1] == s;
  }

  /** A fold over elements that are all the neutral element is neutral. */
  lemma {:induction false} FoldOfNeutrals<T(!new)>(op: (T, T) -> T, e: T, s: seq<T>)
    requires IsMonoid(op, e)
    requires forall i :: 0 <= i < |s| ==> s[i] == e
    ensures Fold(op, e, s) == e
  {
    if |s| > 0 {
      FoldOfNeutrals(op, e, s[..|s| - 1]);
    }
  }

  /** Go's `/` on int: the quotient truncated toward zero. */
  function GoQuo(a: int, b: int): int
    requires b != 0
  {
    var q := Abs(a) / Abs(b);
    if (a < 0) == (b < 0) then q else -q
  }

  /** Go's `%` on int: the remainder takes the sign of the dividend. */
  function GoRem(a: int, b: int): int
    requires b != 0
  {
    if a >= 0 then a % Abs(b) else -((-a) % Abs(b))
  }

  /** |a|, the larger of a and -a. */
  function Abs(a: int): (r: nat)
    ensures r == a || r == -a
    ensures r >= a && r >= -a
  {
    if a < 0 then -a else a
  }

  /** b to the n-th power. */
  function Power(b: int, n: nat): int {
    if n == 0 then 1 else b * Power(b, n - 1)
  }

  /** b^(2h) is (b*b)^h. */
  lemma {:induction false} PowerSquare(b: int, h: nat)
    ensures Power(b, 2 * h) == Power(b * b, h)
  {
    if h > 0 {
      PowerSquare(b, h - 1);
      calc {
        Power(b, 2 * h);
        b * (b * Power(b, 2 * h - 2));
        (b * b) * Power(b, 2 * (h - 1));
        (b * b) * Power(b * b, h - 1);
      }
    }
  }

  /** The step of square-and-multiply: b^n is (b*b)^(n/2), times b when n is odd. */
  lemma PowerHalf(b: int, n: nat)
    ensures Power(b, n) == (if n % 2 == 1 then b else 1) * Power(b * b, n / 2)
  {
    PowerSquare(b, n / 2);
    if n % 2 == 1 {
      assert n == 2 * (n / 2) + 1;
    } else {
      assert n == 2 * (n / 2);
    }
  }

  /** Go's quotient and remainder fit together, the remainder is smaller than
      the divisor in magnitude, and on non-negative operands both agree with
      Dafny's operators. */
  lemma GoDivision(a: int, b: int)
    requires b != 0
    ensures a == b * GoQuo(a, b) + GoRem(a, b)
    ensures Abs(GoRem(a, b)) < Abs(b)
    ensures a >= 0 ==> GoRem(a, b) >= 0
    ensures a >= 0 && b > 0 ==> GoQuo(a, b) == a / b && GoRem(a, b) == a % b
  {
    var q, r := Abs(a) / Abs(b), Abs(a) % Abs(b);
    assert Abs(a) == Abs(b) * q + r;
    if a >= 0 && b > 0 {
    } else if a >= 0 && b < 0 {
      assert b * GoQuo(a, b) == (-b) * q;
    } else if a < 0 && b > 0 {
      assert b * GoQuo(a, b) == -(b * q);
    } else {
      assert b * GoQuo(a, b) == (-b) * (-q) == -((-b) * q);
    }
  }
}
