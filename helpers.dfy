/** The small int and slice helpers of main.go. Variadic and slice arguments
    that are only read are sequences; a slice written in place is an array;
    an *int is a cell object. */
module Helpers {
  import opened Algebra

  /** An int variable that chMax and chMin update through a pointer. */
  class IntVar {
    var value: int

    constructor (v: int)
      ensures value == v
    {
      value := v;
    }
  }

  /** max(as...): the largest argument (there must be at least one). */
  method Max(xs: seq<int>) returns (res: int)
    requires |xs| > 0
    ensures res in xs
    ensures forall a :: a in xs ==> a <= res
  {
    res := xs[0];
    for i := 0 to |xs|
      invariant res in xs
      invariant forall k :: 0 <= k < i ==> xs[k] <= res
    {
      if res < xs[i] {
        res := xs[i];
      }
    }
  }

  /** min(as...): the smallest argument (there must be at least one). */
  method Min(xs: seq<int>) returns (res: int)
    requires |xs| > 0
    ensures res in xs
    ensures forall a :: a in xs ==> res <= a
  {
    res := xs[0];
    for i := 0 to |xs|
      invariant res in xs
      invariant forall k :: 0 <= k < i ==> res <= xs[k]
    {
      if res > xs[i] {
        res := xs[i];
      }
    }
  }

  /** chMax(a, b): *a becomes the larger of *a and b. */
  method ChMax(a: IntVar, b: int)
    modifies a
    ensures a.value >= old(a.value) && a.value >= b
    ensures a.value == old(a.value) || a.value == b
  {
    var args := [a.value, b];
    var m := Max(args);
    assert args[0] in args && args[1] in args;
    a.value := m;
  }

  /** chMin(a, b): *a becomes the smaller of *a and b. */
  method ChMin(a: IntVar, b: int)
    modifies a
    ensures a.value <= old(a.value) && a.value <= b
    ensures a.value == old(a.value) || a.value == b
  {
    var args := [a.value, b];
    var m := Min(args);
    assert args[0] in args && args[1] in args;
    a.value := m;
  }

  /** pow(a, n): square-and-multiply; 1 when n <= 0. */
  method Pow(a: int, n: int) returns (res: int)
    ensures n >= 0 ==> res == Power(a, n)
    ensures n < 0 ==> res == 1
  {
    res := 1;
    var b, k := a, n;
    while k > 0
      invariant n >= 0 ==> k >= 0 && res * Power(b, k) == Power(a, n)
      invariant n < 0 ==> k == n && res == 1
      decreases k
    {
      PowerHalf(b, k);
      if k % 2 == 1 {
        assert res * Power(b, k) == (res * b) * Power(b * b, k / 2);
        res := res * b;
      }
      k := k / 2;
      b := b * b;
    }
  }

  /** The sum of a sequence. */
  function Total(s: seq<int>): int {
    if |s| == 0 then 0 else Total(s[..|s| - 1]) + s[|s| - 1]
  }

  /** The sum of a concatenation is the sum of the parts. */
  lemma {:induction false} TotalAppend(s: seq<int>, t: seq<int>)
    ensures Total(s + t) == Total(s) + Total(t)
    decreases |t|
  {
    if |t| > 0 {
      var u := t[..|t| - 1];
      assert (s + t)[..|s + t| - 1] == s + u;
      TotalAppend(s, u);
    } else {
      assert s + t == s;
    }
  }

  /** sum(s...): the sum of the arguments. */
  method Sum(s: seq<int>) returns (res: int)
    ensures res == Total(s)
  {
    res := 0;
    for i := 0 to |s|
      invariant res == Total(s[..i])
    {
      assert s[..i + 1][..i] == s[..i];
      res := res + s[i];
    }
    assert s[..|s|] == s;
  }

  /** fillSlice(s, v): every element of s becomes v. */
  method FillSlice<T>(s: array<T>, v: T)
    modifies s
    ensures forall i :: 0 <= i < s.Length ==> s[i] == v
  {
    for i := 0 to s.Length
      invariant forall k :: 0 <= k < i ==> s[k] == v
    {
      s[i] := v;
    }
  }

  /** countSlice(s, v): how many elements of s equal v. */
  method CountSlice<T(==)>(s: seq<T>, v: T) returns (res: int)
    ensures res == multiset(s)[v]
  {
    res := 0;
    for i := 0 to |s|
      invariant res == multiset(s[..i])[v]
    {
      assert s[..i + 1] == s[..i] + [s[i]];
      if s[i] == v {
        res := res + 1;
      }
    }
    assert s[..|s|] == s;
  }
}
