/** Next and previous permutation in place (algorithm/permutation/permutation.go).
    Elements are ints. doPermutation is run with one of two strict orders:
    `<` for Next and `>` for Prev; `up` selects which, and every statement
    below holds for both. */
module Permutation {

  /** The comparison doPermutation is given: cmp.Less for Next, its mirror for Prev. */
  predicate Cmp(up: bool, a: int, b: int) {
    if up then a < b else b < a
  }

  // ---------------------------------------------------------------------
  // Lexicographic order

  /** a comes before b, first differing at position j. */
  ghost predicate LexLessAt(up: bool, a: seq<int>, b: seq<int>, j: int) {
    |a| == |b| && 0 <= j < |a| && a[..j] == b[..j] && Cmp(up, a[j], b[j])
  }

  ghost predicate LexLeq(up: bool, a: seq<int>, b: seq<int>) {
    a == b || exists j :: LexLessAt(up, a, b, j)
  }

  /** s[lo..] is in order: no later element comes before an earlier one. */
  ghost predicate InOrderFrom(up: bool, s: seq<int>, lo: int) {
    forall i, j :: 0 <= lo <= i <= j < |s| ==> !Cmp(up, s[j], s[i])
  }

  /** s[lo..] is in reverse order: no earlier element comes before a later one. */
  ghost predicate ReversedFrom(up: bool, s: seq<int>, lo: int) {
    forall i, j :: 0 <= lo <= i <= j < |s| ==> !Cmp(up, s[i], s[j])
  }

  /** No adjacent pair of s[lo..] is an ascent. */
  ghost predicate NoAscentFrom(up: bool, s: seq<int>, lo: int) {
    forall i :: 0 <= lo <= i < |s| - 1 ==> !Ascent(up, s, i)
  }

  /** s[i], s[i+1] is an ascent: the first comes before the second. */
  predicate Ascent(up: bool, s: seq<int>, i: int)
    requires 0 <= i < |s| - 1
  {
    Cmp(up, s[i], s[i + 1])
  }

  /** s has an ascent somewhere: it is not the last arrangement. */
  ghost predicate HasAscent(up: bool, s: seq<int>) {
    exists i :: 0 <= i < |s| - 1 && Ascent(up, s, i)
  }

  lemma {:induction false} NoAscentReversed(up: bool, s: seq<int>, lo: int)
    requires 0 <= lo && NoAscentFrom(up, s, lo)
    ensures ReversedFrom(up, s, lo)
    decreases |s| - lo
  {
    if lo < |s| - 1 {
      NoAscentReversed(up, s, lo + 1);
      forall i, j | lo <= i <= j < |s|
        ensures !Cmp(up, s[i], s[j])
      {
        if i == lo && j > lo {
          assert !Ascent(up, s, lo) && !Cmp(up, s[lo + 1], s[j]);
        }
      }
    }
  }

  /** Cutting a common prefix off two sequences with equal multisets leaves
      suffixes with equal multisets. */
  lemma CancelPrefix(a: seq<int>, b: seq<int>, j: int)
    requires 0 <= j <= |a| == |b| && a[..j] == b[..j] && multiset(a) == multiset(b)
    ensures multiset(a[j..]) == multiset(b[j..])
  {
    assert a == a[..j] + a[j..];
    assert b == b[..j] + b[j..];
    assert multiset(a) == multiset(a[..j]) + multiset(a[j..]);
    assert multiset(b) == multiset(b[..j]) + multiset(b[j..]);
    assert multiset(a[j..]) == multiset(a) - multiset(a[..j]);
    assert multiset(b[j..]) == multiset(b) - multiset(b[..j]);
  }

  /** Where t agrees with s before j and s[j..] is in reverse order, t[j]
      does not come after s[j]. */
  lemma NotAbove(up: bool, s: seq<int>, t: seq<int>, j: int)
    requires ReversedFrom(up, s, j) && |t| == |s| && multiset(t) == multiset(s)
    requires 0 <= j < |s| && s[..j] == t[..j]
    ensures !Cmp(up, s[j], t[j])
  {
    CancelPrefix(s, t, j);
    assert t[j] in multiset(t[j..]) by {
      assert t[j..][0] == t[j];
    }
    assert t[j] in s[j..];
    var m :| 0 <= m < |s[j..]| && s[j..][m] == t[j];
    assert s[j + m] == t[j];
  }

  /** An arrangement in reverse order is the last one: nothing with the same
      elements comes after it. */
  lemma LastArrangement(up: bool, s: seq<int>, t: seq<int>)
    requires ReversedFrom(up, s, 0) && |t| == |s| && multiset(t) == multiset(s)
    ensures forall j :: !LexLessAt(up, s, t, j)
  {
    forall j | 0 <= j < |s| && s[..j] == t[..j]
      ensures !Cmp(up, s[j], t[j])
    {
      NotAbove(up, s, t, j);
    }
  }

  /** The ordered part of a sequence stays ordered once the prefix is cut off. */
  lemma InOrderDrop(up: bool, s: seq<int>, j: int)
    requires 0 <= j <= |s| && InOrderFrom(up, s, j)
    ensures InOrderFrom(up, s[j..], 0)
  {
    forall a, b | 0 <= a <= b < |s[j..]|
      ensures !Cmp(up, s[j..][b], s[j..][a])
    {
      assert s[j..][a] == s[j + a] && s[j..][b] == s[j + b];
    }
  }

  /** Sequences agreeing before j, with s[j..] at or before t[j..], are in the
      same order. */
  lemma LeqAfter(up: bool, s: seq<int>, t: seq<int>, j: int)
    requires 0 <= j <= |s| == |t| && s[..j] == t[..j] && LexLeq(up, s[j..], t[j..])
    ensures LexLeq(up, s, t)
  {
    assert s == s[..j] + s[j..] && t == t[..j] + t[j..];
    if s[j..] != t[j..] {
      var i :| LexLessAt(up, s[j..], t[j..], i);
      assert s[..j + i] == s[..j] + s[j..][..i];
      assert t[..j + i] == t[..j] + t[j..][..i];
      assert LexLessAt(up, s, t, j + i);
    }
  }

  /** An arrangement in order is the first one: everything with the same
      elements is at or after it. */
  lemma {:induction false} FirstArrangement(up: bool, s: seq<int>, t: seq<int>)
    requires InOrderFrom(up, s, 0) && |t| == |s| && multiset(t) == multiset(s)
    ensures LexLeq(up, s, t)
    decreases |s|
  {
    if |s| > 0 {
      assert t[0] in multiset(s) by {
        assert t[0] in multiset(t);
      }
      var m :| 0 <= m < |s| && s[m] == t[0];
      if t[0] != s[0] {
        assert LexLessAt(up, s, t, 0);
      } else {
        assert s[..1] == t[..1];
        CancelPrefix(s, t, 1);
        InOrderDrop(up, s, 1);
        FirstArrangement(up, s[1..], t[1..]);
        LeqAfter(up, s, t, 1);
      }
    }
  }

  // ---------------------------------------------------------------------
  // The position doPermutation works from

  /** The largest i < j with an ascent s[i], s[i+1], or -1 when there is none. */
  function LastAscentBelow(up: bool, s: seq<int>, j: int): (idx: int)
    requires j < |s|
    ensures -1 <= idx && (idx < j || idx == -1)
    ensures idx >= 0 ==> Ascent(up, s, idx)
    ensures forall i :: 0 <= i && idx < i < j ==> !Ascent(up, s, i)
    decreases j
  {
    if j <= 0 then -1
    else if Cmp(up, s[j - 1], s[j]) then j - 1
    else LastAscentBelow(up, s, j - 1)
  }

  /** doPermutation's idx: the last ascent of s, or -1. */
  function LastAscent(up: bool, s: seq<int>): int {
    LastAscentBelow(up, s, |s| - 1)
  }

  /** What one step produces from p: the prefix before idx kept, p[idx]
      replaced by the least later element above it, and the remaining
      elements in order. */
  ghost predicate NextShape(up: bool, p: seq<int>, q: seq<int>, idx: int) {
    && 0 <= idx < |p| - 1 && |q| == |p|
    && Ascent(up, p, idx) && NoAscentFrom(up, p, idx + 1)
    && multiset(q) == multiset(p)
    && q[..idx] == p[..idx]
    && Cmp(up, p[idx], q[idx])
    && (forall i :: idx < i < |p| && Cmp(up, p[idx], p[i]) ==> !Cmp(up, p[i], q[idx]))
    && InOrderFrom(up, q, idx + 1)
  }

  /** The step goes forward, and to the very next arrangement: every
      arrangement of the same elements after p is at or after q. */
  lemma Successor(up: bool, p: seq<int>, q: seq<int>, idx: int, r: seq<int>, j: int)
    requires NextShape(up, p, q, idx)
    requires |r| == |p| && multiset(r) == multiset(p) && LexLessAt(up, p, r, j)
    ensures LexLessAt(up, p, q, idx)
    ensures LexLeq(up, q, r)
  {
    if j < idx {
      assert q[..j] == p[..j] && q[j] == p[j];
      assert LexLessAt(up, q, r, j);
    } else if j > idx {
      NoAscentReversed(up, p, idx + 1);
      var p', r' := p[j..], r[j..];
      CancelPrefix(p, r, j);
      assert ReversedFrom(up, p', 0) by {
        forall a, b | 0 <= a <= b < |p'|
          ensures !Cmp(up, p'[a], p'[b])
        {
          assert p'[a] == p[j + a] && p'[b] == p[j + b];
        }
      }
      LastArrangement(up, p', r');
      assert p'[..0] == r'[..0];
      assert LexLessAt(up, p', r', 0);
    } else {
      SuccessorAt(up, p, q, idx, r);
    }
  }

  /** The element r puts at idx is one of p's later elements. */
  lemma LaterElement(p: seq<int>, r: seq<int>, idx: int) returns (m: int)
    requires 0 <= idx < |p| == |r| && multiset(r) == multiset(p)
    requires p[..idx] == r[..idx] && r[idx] != p[idx]
    ensures idx < m < |p| && p[m] == r[idx]
  {
    CancelPrefix(p, r, idx);
    assert p[idx..] == [p[idx]] + p[idx + 1..];
    assert r[idx..] == [r[idx]] + r[idx + 1..];
    assert multiset(p[idx..]) == multiset{p[idx]} + multiset(p[idx + 1..]);
    assert r[idx] in multiset(r[idx..]);
    assert r[idx] in p[idx + 1..];
    var k :| 0 <= k < |p[idx + 1..]| && p[idx + 1..][k] == r[idx];
    m := idx + 1 + k;
  }

  /** The case of Successor where r first differs from p at idx. */
  lemma SuccessorAt(up: bool, p: seq<int>, q: seq<int>, idx: int, r: seq<int>)
    requires NextShape(up, p, q, idx)
    requires |r| == |p| && multiset(r) == multiset(p) && LexLessAt(up, p, r, idx)
    ensures LexLeq(up, q, r)
  {
    var m := LaterElement(p, r, idx);
    assert !Cmp(up, r[idx], q[idx]);
    if q[idx] != r[idx] {
      assert LexLessAt(up, q, r, idx);
    } else {
      assert q[..idx + 1] == r[..idx + 1] by {
        assert q[..idx + 1] == q[..idx] + [q[idx]];
        assert r[..idx + 1] == r[..idx] + [r[idx]];
      }
      SuccessorTail(up, q, r, idx + 1);
    }
  }

  /** After the common prefix, the ordered rest of q is at or before r's rest. */
  lemma SuccessorTail(up: bool, q: seq<int>, r: seq<int>, j: int)
    requires 0 <= j <= |q| == |r| && q[..j] == r[..j] && multiset(q) == multiset(r)
    requires InOrderFrom(up, q, j)
    ensures LexLeq(up, q, r)
  {
    CancelPrefix(q, r, j);
    InOrderDrop(up, q, j);
    FirstArrangement(up, q[j..], r[j..]);
    LeqAfter(up, q, r, j);
  }

  /** With no ascent p is the last arrangement: doPermutation reports false
      exactly when there is no next one. */
  lemma NoSuccessor(up: bool, p: seq<int>, r: seq<int>)
    requires LastAscent(up, p) == -1 && |r| == |p| && multiset(r) == multiset(p)
    ensures forall j :: !LexLessAt(up, p, r, j)
  {
    NoAscentReversed(up, p, 0);
    LastArrangement(up, p, r);
  }

  /** The last-ascent scan finds an ascent exactly when there is one. */
  lemma AscentFound(up: bool, s: seq<int>)
    ensures LastAscent(up, s) >= 0 <==> HasAscent(up, s)
  {
    if LastAscent(up, s) >= 0 {
      var i := LastAscent(up, s);
      assert 0 <= i < |s| - 1 && Ascent(up, s, i);
    }
  }

  // ---------------------------------------------------------------------
  // The array operations

  /** NewPermutation(n): the identity arrangement 0, 1, ..., n-1. */
  method NewPermutation(n: nat) returns (p: array<int>)
    ensures fresh(p) && p.Length == n
    ensures forall i :: 0 <= i < n ==> p[i] == i
  {
    p := new int[n];
    for i := 0 to n
      invariant forall k :: 0 <= k < i ==> p[k] == k
    {
      p[i] := i;
    }
  }

  /** One insertion step: moves s[i] left past every larger element. */
  method InsertLeft(s: array<int>, i: int)
    requires 0 <= i < s.Length
    requires forall a, b :: 0 <= a <= b < i ==> s[a] <= s[b]
    modifies s
    ensures forall a, b :: 0 <= a <= b <= i ==> s[a] <= s[b]
    ensures forall k :: i < k < s.Length ==> s[k] == old(s[k])
    ensures multiset(s[..]) == multiset(old(s[..]))
  {
    var j := i;
    while j > 0 && s[j - 1] > s[j]
      invariant 0 <= j <= i
      invariant forall a, b :: 0 <= a <= b <= i && a != j && b != j ==> s[a] <= s[b]
      invariant forall a, b :: 0 <= a < j < b <= i ==> s[a] <= s[b]
      invariant forall b :: j < b <= i ==> s[j] <= s[b]
      invariant forall k :: i < k < s.Length ==> s[k] == old(s[k])
      invariant multiset(s[..]) == multiset(old(s[..]))
      decreases j
    {
      s[j - 1], s[j] := s[j], s[j - 1];
      j := j - 1;
    }
  }

  /** NewPermutationInitialized(s): s sorted ascending in place, the first
      arrangement of its elements. */
  method NewPermutationInitialized(s: array<int>) returns (p: array<int>)
    modifies s
    ensures p == s
    ensures forall a, b :: 0 <= a <= b < s.Length ==> s[a] <= s[b]
    ensures multiset(s[..]) == multiset(old(s[..]))
  {
    for i := 0 to s.Length
      invariant forall a, b :: 0 <= a <= b < i ==> s[a] <= s[b]
      invariant multiset(s[..]) == multiset(old(s[..]))
    {
      InsertLeft(s, i);
    }
    p := s;
  }

  /** doPermutation's first loop: scan down from n-2 for the last ascent. */
  method FindAscent(p: array<int>, up: bool) returns (idx: int)
    ensures idx == LastAscent(up, p[..])
  {
    var n := p.Length;
    idx := -1;
    var i := n - 2;
    while i >= 0
      invariant -2 <= i <= n - 2 && (i == -2 ==> n == 0)
      invariant LastAscent(up, p[..]) == LastAscentBelow(up, p[..], i + 1)
      decreases i
    {
      if Cmp(up, p[i], p[i + 1]) {
        idx := i;
        break;
      }
      i := i - 1;
    }
  }

  /** Exchanges p[i] and p[j]. */
  method Swap(p: array<int>, i: int, j: int)
    requires 0 <= i < p.Length && 0 <= j < p.Length
    modifies p
    ensures p[i] == old(p[j]) && p[j] == old(p[i])
    ensures forall k :: 0 <= k < p.Length && k != i && k != j ==> p[k] == old(p[k])
    ensures multiset(p[..]) == multiset(old(p[..]))
  {
    p[i], p[j] := p[j], p[i];
  }

  /** doPermutation's second loop: reverse p[lo..hi) with two moving indices. */
  method ReverseRange(p: array<int>, lo: int, hi: int)
    requires 0 <= lo <= hi <= p.Length
    modifies p
    ensures forall i :: 0 <= i < lo || hi <= i < p.Length ==> p[i] == old(p[i])
    ensures forall i :: lo <= i < hi ==> p[i] == old(p[lo + hi - 1 - i])
    ensures multiset(p[..]) == multiset(old(p[..]))
  {
    var l, r := lo, hi - 1;
    while l < r
      invariant lo <= l && l + r == lo + hi - 1 && l <= r + 1
      invariant forall i :: 0 <= i < lo || hi <= i < p.Length ==> p[i] == old(p[i])
      invariant forall i :: l <= i <= r ==> p[i] == old(p[i])
      invariant forall i :: lo <= i < l || r < i < hi ==> p[i] == old(p[lo + hi - 1 - i])
      invariant multiset(p[..]) == multiset(old(p[..]))
    {
      Swap(p, l, r);
      l, r := l + 1, r - 1;
    }
  }

  /** doPermutation's third loop: swap p[idx] with the first later element
      above it. */
  method SwapFirstAbove(p: array<int>, up: bool, idx: int) returns (ghost k: int)
    requires 0 <= idx < p.Length
    requires exists i :: idx < i < p.Length && Cmp(up, p[idx], p[i])
    modifies p
    ensures idx < k < p.Length && Cmp(up, old(p[idx]), old(p[k]))
    ensures forall i :: idx < i < k ==> !Cmp(up, old(p[idx]), old(p[i]))
    ensures p[..] == old(p[..])[idx := old(p[k])][k := old(p[idx])]
    ensures multiset(p[..]) == multiset(old(p[..]))
  {
    var i := idx + 1;
    while i < p.Length
      invariant idx < i <= p.Length
      invariant forall m :: idx < m < i ==> !Cmp(up, p[idx], p[m])
    {
      if Cmp(up, p[idx], p[i]) {
        k := i;
        p[idx], p[i] := p[i], p[idx];
        return;
      }
      i := i + 1;
    }
    assert false;
  }

  /** Reversing the suffix after the last ascent puts it in order. */
  lemma ReversedSuffix(up: bool, p0: seq<int>, p1: seq<int>, idx: int)
    requires 0 <= idx < |p0| && |p1| == |p0| && NoAscentFrom(up, p0, idx + 1)
    requires forall i :: 0 <= i <= idx ==> p1[i] == p0[i]
    requires forall i :: idx < i < |p0| ==> p1[i] == p0[|p0| + idx - i]
    ensures InOrderFrom(up, p1, idx + 1)
  {
    var n := |p0|;
    NoAscentReversed(up, p0, idx + 1);
    forall i, j | idx + 1 <= i <= j < n
      ensures !Cmp(up, p1[j], p1[i])
    {
      assert p1[j] == p0[n + idx - j] && p1[i] == p0[n + idx - i];
    }
  }

  /** The element swapped into idx is the least later element above p0[idx]. */
  lemma LeastAbove(up: bool, p0: seq<int>, p1: seq<int>, idx: int, k: int)
    requires 0 <= idx < |p0| && |p1| == |p0| && InOrderFrom(up, p1, idx + 1)
    requires forall i :: 0 <= i <= idx ==> p1[i] == p0[i]
    requires forall i :: idx < i < |p0| ==> p1[i] == p0[|p0| + idx - i]
    requires idx < k < |p0|
    requires forall i :: idx < i < k ==> !Cmp(up, p1[idx], p1[i])
    ensures forall i :: idx < i < |p0| && Cmp(up, p0[idx], p0[i]) ==> !Cmp(up, p0[i], p1[k])
  {
    var n := |p0|;
    assert p1[idx] == p0[idx];
    forall i | idx < i < n && Cmp(up, p0[idx], p0[i])
      ensures !Cmp(up, p0[i], p1[k])
    {
      var m := n + idx - i;
      assert p1[m] == p0[i];
      assert k <= m;
    }
  }

  /** The three loops together produce NextShape. */
  lemma StepShape(up: bool, p0: seq<int>, p1: seq<int>, p2: seq<int>, idx: int, k: int)
    requires 0 <= idx < |p0| - 1 && |p1| == |p0| && |p2| == |p0|
    requires Ascent(up, p0, idx) && NoAscentFrom(up, p0, idx + 1)
    requires forall i :: 0 <= i <= idx ==> p1[i] == p0[i]
    requires forall i :: idx < i < |p0| ==> p1[i] == p0[|p0| + idx - i]
    requires idx < k < |p0| && Cmp(up, p1[idx], p1[k])
    requires forall i :: idx < i < k ==> !Cmp(up, p1[idx], p1[i])
    requires p2 == p1[idx := p1[k]][k := p1[idx]]
    requires multiset(p2) == multiset(p0)
    ensures NextShape(up, p0, p2, idx)
  {
    var n := |p0|;
    ReversedSuffix(up, p0, p1, idx);
    LeastAbove(up, p0, p1, idx, k);
    assert p1[idx] == p0[idx] && p2[idx] == p1[k];
    assert InOrderFrom(up, p2, idx + 1) by {
      forall i, j | idx + 1 <= i <= j < n
        ensures !Cmp(up, p2[j], p2[i])
      {
        if i == k && j != k {
          assert !Cmp(up, p1[j], p1[k]);
        }
      }
    }
    assert p2[..idx] == p0[..idx] by {
      forall t | 0 <= t < idx
        ensures p2[t] == p0[t]
      {
        assert p2[t] == p1[t];
      }
    }
  }

  /** doPermutation: false, and p unchanged, when p has no ascent; otherwise
      true and p rearranged into NextShape. */
  method DoPermutation(p: array<int>, up: bool) returns (res: bool)
    modifies p
    ensures res <==> HasAscent(up, old(p[..]))
    ensures !res ==> p[..] == old(p[..])
    ensures res ==> NextShape(up, old(p[..]), p[..], LastAscent(up, old(p[..])))
  {
    ghost var p0 := p[..];
    AscentFound(up, p0);
    var idx := FindAscent(p, up);
    if idx == -1 {
      return false;
    }
    ReverseRange(p, idx + 1, p.Length);
    ghost var p1 := p[..];
    assert p1[p.Length - 1] == p0[idx + 1];
    var k := SwapFirstAbove(p, up, idx);
    StepShape(up, p0, p1, p[..], idx, k);
    return true;
  }

  /** Next: the lexicographically next arrangement, or false at the last one. */
  method Next(p: array<int>) returns (res: bool)
    modifies p
    ensures res <==> HasAscent(true, old(p[..]))
    ensures !res ==> p[..] == old(p[..])
    ensures res ==> NextShape(true, old(p[..]), p[..], LastAscent(true, old(p[..])))
  {
    res := DoPermutation(p, true);
  }

  /** Prev: the lexicographically previous arrangement, or false at the first one. */
  method Prev(p: array<int>) returns (res: bool)
    modifies p
    ensures res <==> HasAscent(false, old(p[..]))
    ensures !res ==> p[..] == old(p[..])
    ensures res ==> NextShape(false, old(p[..]), p[..], LastAscent(false, old(p[..])))
  {
    res := DoPermutation(p, false);
  }
}
