/** Iterative segment tree (package segtree, segmentTree): an array of 2n
    nodes whose leaves n..2n-1 hold the elements and whose internal node i
    holds op(data[2i], data[2i+1]). */
module SegTree {
  import opened Algebra

  /** 2^t. */
  ghost function Pow2(t: nat): (p: nat)
    ensures p >= 1
  {
    if t == 0 then 1 else 2 * Pow2(t - 1)
  }

  /** Node j of `d` holds op of its two children. */
  ghost predicate Combines<T>(op: (T, T) -> T, d: seq<T>, j: nat)
    requires 2 * j + 1 < |d|
  {
    d[j] == op(d[2 * j], d[2 * j + 1])
  }

  /** Every internal node of `d` (an array of 2n nodes) combines its children. */
  ghost predicate Internal<T>(op: (T, T) -> T, d: seq<T>, n: nat)
    requires |d| == 2 * n
  {
    forall j :: 1 <= j < n ==> Combines(op, d, j)
  }

  /** Internal node j combines its children, for every j in (lo, n). */
  ghost predicate InternalAbove<T>(op: (T, T) -> T, d: seq<T>, n: nat, lo: int)
    requires |d| == 2 * n
  {
    forall j :: 1 <= j < n && lo < j ==> Combines(op, d, j)
  }

  /** Every internal node except `broken` combines its children. */
  ghost predicate InternalExcept<T>(op: (T, T) -> T, d: seq<T>, n: nat, broken: int)
    requires |d| == 2 * n
  {
    forall j :: 1 <= j < n && j != broken ==> Combines(op, d, j)
  }

  /** Writing a leaf can only break the combining invariant at its parent. */
  lemma LeafWrite<T>(op: (T, T) -> T, d0: seq<T>, d1: seq<T>, n: nat, p: nat, v: T)
    requires |d0| == 2 * n && n <= p < 2 * n && d1 == d0[p := v]
    requires Internal(op, d0, n)
    ensures InternalExcept(op, d1, n, p / 2)
  {
    forall j | 1 <= j < n && j != p / 2
      ensures Combines(op, d1, j)
    {
      assert Combines(op, d0, j);
    }
  }

  /** Refolding the broken node `p` moves the break to its parent. */
  lemma UpdateStep<T>(op: (T, T) -> T, d0: seq<T>, d1: seq<T>, n: nat, p: nat)
    requires |d0| == 2 * n && 1 <= p < n && d1 == d0[p := op(d0[2 * p], d0[2 * p + 1])]
    requires InternalExcept(op, d0, n, p)
    ensures InternalExcept(op, d1, n, p / 2)
  {
    forall j | 1 <= j < n && j != p / 2
      ensures Combines(op, d1, j)
    {
      if j != p {
        assert Combines(op, d0, j);
      }
    }
  }

  /** Refolding node i, whose descendants are all combined, extends the
      combined region down to i. */
  lemma BuildStep<T>(op: (T, T) -> T, d0: seq<T>, d1: seq<T>, n: nat, i: nat)
    requires |d0| == 2 * n && 1 <= i < n && d1 == d0[i := op(d0[2 * i], d0[2 * i + 1])]
    requires InternalAbove(op, d0, n, i)
    ensures InternalAbove(op, d1, n, i - 1)
  {
    forall j | 1 <= j < n && i - 1 < j
      ensures Combines(op, d1, j)
    {
      if j != i {
        assert Combines(op, d0, j);
      }
    }
  }

  /** Where Product's left end goes before halving: past a right child. */
  function NextLeft(l: nat): nat {
    if l % 2 == 1 then l + 1 else l
  }

  /** Where Product's right end goes before halving: before a right child. */
  function NextRight(r: nat): nat {
    if r % 2 == 1 then r - 1 else r
  }

  /** k * 2^t, the first position under node k at t levels below it,
      written without multiplication so that the solver stays linear. */
  ghost function Lo(k: nat, t: nat): nat
    decreases t
  {
    if t == 0 then k else Lo(2 * k, t - 1)
  }

  /** The positions under node k at t levels below are Lo(k, t) ..
      Lo(k + 1, t), 2^t of them. */
  lemma {:induction false} LoNext(k: nat, t: nat)
    ensures Lo(k + 1, t) == Lo(k, t) + Pow2(t)
    decreases t
  {
    if t > 0 {
      LoNext(2 * k, t - 1);
      LoNext(2 * k + 1, t - 1);
    }
  }

  lemma {:induction false} LoZero(t: nat)
    ensures Lo(0, t) == 0
    decreases t
  {
    if t > 0 {
      LoZero(t - 1);
    }
  }

  lemma {:induction false} LoAtLeast(k: nat, t: nat)
    ensures k <= Lo(k, t)
    decreases t
  {
    if t > 0 {
      LoAtLeast(2 * k, t - 1);
    }
  }

  lemma {:induction false} LoMono(k: nat, m: nat, t: nat)
    requires k <= m
    ensures Lo(k, t) <= Lo(m, t)
    decreases t
  {
    if t > 0 {
      LoMono(2 * k, 2 * m, t - 1);
    }
  }

  /** Moving up one level: an even node's span starts where its parent's does. */
  lemma HalfLo(k: nat, t: nat)
    requires k % 2 == 0
    ensures Lo(k / 2, t + 1) == Lo(k, t)
  {
    assert 2 * (k / 2) == k;
  }

  lemma SliceOfSlice<T>(s: seq<T>, a: nat, b: nat, i: nat, j: nat)
    requires a <= b <= |s| && i <= j <= b - a
    ensures s[a..b][i..j] == s[a + i..a + j]
  {
    var u, w := s[a..b][i..j], s[a + i..a + j];
    assert |u| == |w|;
    forall k | 0 <= k < |u|
      ensures u[k] == w[k]
    {
    }
    assert u == w;
  }

  /** A node whose span of positions lies among the leaves holds the fold of
      those leaves: the nodes between it and those leaves are all internal,
      so the combining invariant applies all the way down. */
  lemma {:induction false} NodeFold<T(!new)>(op: (T, T) -> T, e: T, d: seq<T>, n: nat, k: nat, t: nat)
    requires IsMonoid(op, e)
    requires |d| == 2 * n && Internal(op, d, n)
    requires n <= Lo(k, t) && Lo(k + 1, t) <= 2 * n
    ensures k < |d| && Lo(k, t) <= Lo(k + 1, t)
    ensures d[k] == Fold(op, e, d[Lo(k, t)..Lo(k + 1, t)])
    decreases t
  {
    if t == 0 {
      assert d[k..k + 1] == [d[k]];
      assert Fold(op, e, d[k..k + 1]) == op(e, d[k]);
    } else {
      ChildSpans(n, k, t);
      assert Combines(op, d, k);
      var a, m, b := Lo(2 * k, t - 1), Lo(2 * k + 1, t - 1), Lo(2 * k + 2, t - 1);
      NodeFold(op, e, d, n, 2 * k, t - 1);
      NodeFold(op, e, d, n, 2 * k + 1, t - 1);
      FoldSplit(op, e, d, a, m, b);
    }
  }

  /** The span of an internal node k at level t > 0 is the spans of its
      children 2k and 2k+1 at level t-1, side by side. */
  lemma ChildSpans(n: nat, k: nat, t: nat)
    requires t > 0 && n <= Lo(k, t) && Lo(k + 1, t) <= 2 * n
    ensures Lo(k, t) == Lo(2 * k, t - 1) && Lo(k + 1, t) == Lo(2 * k + 2, t - 1)
    ensures n <= Lo(2 * k, t - 1) <= Lo(2 * k + 1, t - 1) <= Lo(2 * k + 2, t - 1) <= 2 * n
    ensures 1 <= k < n
  {
    assert Lo(k, t) == Lo(2 * k, t - 1) && Lo(k + 1, t) == Lo(2 * k + 2, t - 1);
    LoAtLeast(2 * k + 2, t - 1);
    LoNext(2 * k, t - 1);
    LoNext(2 * k + 1, t - 1);
    LoZero(t);
  }

  class SegmentTree<T(!new)> {
    const n: nat
    const data: array<T>
    const e: () -> T
    const op: (T, T) -> T

    ghost predicate Valid()
      reads data
    {
      data.Length == 2 * n && Internal(op, data[..], n)
    }

    /** The elements: the leaves data[n..2n). */
    ghost function Leaves(): (s: seq<T>)
      requires data.Length == 2 * n
      reads data
      ensures |s| == n
    {
      data[n..2 * n]
    }

    /** NewSegmentTreeWith: leaves copied from s, internal nodes built by
        update(i) for i = n-1 down to 1; node 0 keeps e(). */
    constructor With(s: seq<T>, e: () -> T, op: (T, T) -> T)
      ensures Valid() && fresh(data)
      ensures this.e == e && this.op == op && n == |s|
      ensures Leaves() == s
    {
      var m := |s|;
      var unit := e();
      var d := new T[2 * m](i requires 0 <= i < 2 * m => if i < m then unit else s[i - m]);
      n := m;
      data := d;
      this.e := e;
      this.op := op;
      new;
      assert data[m..2 * m] == s;
      Build();
    }

    /** NewSegmentTree: n leaves equal to e(). */
    constructor New(n: nat, e: () -> T, op: (T, T) -> T)
      ensures Valid() && fresh(data)
      ensures this.e == e && this.op == op && this.n == n
      ensures Leaves() == seq(n, _ => e())
    {
      var unit := e();
      var d := new T[2 * n](_ => unit);
      this.n := n;
      data := d;
      this.e := e;
      this.op := op;
      new;
      assert data[n..2 * n] == seq(n, _ => e());
      Build();
    }

    /** The constructors' loop `for i := n - 1; i >= 1; i-- { update(i) }`. */
    method Build()
      requires data.Length == 2 * n
      modifies data
      ensures Valid() && Leaves() == old(Leaves())
    {
      ghost var leaves := Leaves();
      var i := n - 1;
      while i >= 1
        invariant 0 <= i <= n || (n == 0 && i == -1)
        invariant InternalAbove(op, data[..], n, i)
        invariant Leaves() == leaves
        decreases i
      {
        ghost var d0 := data[..];
        Update(i);
        BuildStep(op, d0, data[..], n, i);
        i := i - 1;
      }
    }

    /** update(now): refold node now from its two children. */
    method Update(now: nat)
      requires data.Length == 2 * n && 1 <= now < n
      modifies data
      ensures data[..] == old(data[..])[now := op(data[2 * now], data[2 * now + 1])]
      ensures Leaves() == old(Leaves())
    {
      data[now] := op(data[2 * now], data[2 * now + 1]);
      assert Leaves() == old(Leaves());
    }

    function Len(): (r: nat)
      requires Valid()
      reads data
      ensures r == |Leaves()|
    {
      n
    }

    /** Set(i, val): write the leaf, then refold every ancestor on the way to
        the root. */
    method Set(i: int, val: T)
      requires Valid() && 0 <= i < n
      modifies data
      ensures Valid()
      ensures Leaves() == old(Leaves())[i := val]
    {
      ghost var leaves := Leaves()[i := val];
      var now := n + i;
      ghost var d0 := data[..];
      data[now] := val;
      LeafWrite(op, d0, data[..], n, now, val);
      assert Leaves() == leaves;
      while now > 1
        invariant 1 <= now < 2 * n
        invariant InternalExcept(op, data[..], n, now / 2)
        invariant Leaves() == leaves
        decreases now
      {
        now := now / 2;
        ghost var d1 := data[..];
        Update(now);
        UpdateStep(op, d1, data[..], n, now);
      }
    }

    /** Get(i): the leaf data[n + i]; Go checks only the slice bounds. */
    method Get(i: int) returns (v: T)
      requires Valid() && 0 <= i < n
      ensures v == Leaves()[i]
    {
      v := data[n + i];
    }

    /** Product(l, r): the fold of the elements in [l, r), accumulated
        bottom-up from both ends; valL grows rightwards and valR leftwards.
        An inverted range never enters the loop and gives e(). */
    method Product(l0: int, r0: int) returns (res: T)
      requires Valid() && IsMonoid(op, e())
      requires 0 <= l0 <= n && 0 <= r0 <= n
      ensures l0 <= r0 ==> res == Fold(op, e(), Leaves()[l0..r0])
      ensures r0 < l0 ==> res == e()
    {
      ghost var d := data[..];
      var l, r := l0 + n, r0 + n;
      var valL, valR := e(), e();
      if l < r {
        ghost var t: nat;
        l, r, valL, valR, t := Climb(d, l, r, valL, valR);
        ProductDone(d, l0, r0, Lo(l, t));
      }
      res := op(valL, valR);
    }

    /** Product's loop: level by level, consume a right child on the left
        and a left child on the right, then move both ends to the parents. */
    method Climb(ghost d: seq<T>, l0: nat, r0: nat, valL0: T, valR0: T)
      returns (l: nat, r: nat, valL: T, valR: T, ghost t: nat)
      requires IsMonoid(op, e()) && data.Length == 2 * n && d == data[..] && Internal(op, d, n)
      requires n <= l0 <= r0 <= 2 * n && Spans(d, l0, r0, l0, r0, 0, valL0, valR0)
      ensures l == r && Spans(d, l0, r0, l, r, t, valL, valR)
    {
      l, r, valL, valR, t := l0, r0, valL0, valR0, 0;
      ghost var lo, hi := l0, r0;
      while l < r
        invariant 0 <= l <= r
        invariant Spans(d, lo, hi, l, r, t, valL, valR)
        decreases r - l
      {
        Level(d, lo, hi, l, r, t, valL, valR);
        ghost var l1, r1 := NextLeft(l), NextRight(r);
        ghost var vL := if l % 2 == 1 then op(valL, d[l]) else valL;
        ghost var vR := if r % 2 == 1 then op(d[r - 1], valR) else valR;
        if l % 2 == 1 {
          valL := op(valL, data[l]);
          l := l + 1;
        }
        if r % 2 == 1 {
          r := r - 1;
          valR := op(data[r], valR);
        }
        assert l == l1 && r == r1 && valL == vL && valR == vR;
        l := l / 2;
        r := r / 2;
        t := t + 1;
      }
    }

    /** One level of Climb: where the loop's two ends go, and that the spans
        still account for every leaf of [lo, hi). */
    lemma Level(d: seq<T>, lo: nat, hi: nat, l: nat, r: nat, t: nat, valL: T, valR: T)
      requires IsMonoid(op, e()) && |d| == 2 * n && Internal(op, d, n)
      requires n <= lo && l < r && Spans(d, lo, hi, l, r, t, valL, valR)
      ensures l < |d| && r - 1 < |d|
      ensures NextLeft(l) / 2 <= NextRight(r) / 2 && NextRight(r) / 2 - NextLeft(l) / 2 < r - l
      ensures Spans(d, lo, hi, NextLeft(l) / 2, NextRight(r) / 2, t + 1,
                    if l % 2 == 1 then op(valL, d[l]) else valL,
                    if r % 2 == 1 then op(d[r - 1], valR) else valR)
    {
      LevelLeft(d, lo, hi, l, r, t, valL, valR);
      var l1 := NextLeft(l);
      var vL := if l % 2 == 1 then op(valL, d[l]) else valL;
      LevelRight(d, lo, hi, l1, r, t, vL, valR);
      Halve(d, lo, hi, l1, NextRight(r), t, vL, if r % 2 == 1 then op(d[r - 1], valR) else valR);
    }

    /** The left end's half of a level. */
    lemma LevelLeft(d: seq<T>, lo: nat, hi: nat, l: nat, r: nat, t: nat, valL: T, valR: T)
      requires IsMonoid(op, e()) && |d| == 2 * n && Internal(op, d, n)
      requires n <= lo && l < r && Spans(d, lo, hi, l, r, t, valL, valR)
      ensures l < |d| && r - 1 < |d| && NextLeft(l) % 2 == 0 && NextLeft(l) <= r
      ensures r % 2 == 1 ==> NextLeft(l) < r
      ensures Spans(d, lo, hi, NextLeft(l), r, t, if l % 2 == 1 then op(valL, d[l]) else valL, valR)
    {
      LoAtLeast(r, t);
      if l % 2 == 1 {
        AdvanceLeft(d, lo, hi, l, r, t, valL, valR);
      }
    }

    /** The right end's half of a level. */
    lemma LevelRight(d: seq<T>, lo: nat, hi: nat, l: nat, r: nat, t: nat, valL: T, valR: T)
      requires IsMonoid(op, e()) && |d| == 2 * n && Internal(op, d, n)
      requires n <= lo && l <= r && (r % 2 == 1 ==> l < r) && r - 1 < |d|
      requires Spans(d, lo, hi, l, r, t, valL, valR)
      ensures NextRight(r) % 2 == 0 && l <= NextRight(r)
      ensures Spans(d, lo, hi, l, NextRight(r), t, valL, if r % 2 == 1 then op(d[r - 1], valR) else valR)
    {
      if r % 2 == 1 {
        AdvanceRight(d, lo, hi, l, r, t, valL, valR);
      }
    }

    /** Product's loop invariant: nodes l.. r-1 of level t span the part of
        [lo, hi) still to fold; valL folds the leaves left of that part and
        valR those right of it. */
    ghost predicate Spans(d: seq<T>, lo: nat, hi: nat, l: nat, r: nat, t: nat, valL: T, valR: T) {
      && hi <= |d|
      && lo <= Lo(l, t) <= Lo(r, t) <= hi
      && valL == Fold(op, e(), d[lo..Lo(l, t)])
      && valR == Fold(op, e(), d[Lo(r, t)..hi])
    }

    /** Consuming the right child l on the left extends valL by node l. */
    lemma AdvanceLeft(d: seq<T>, lo: nat, hi: nat, l: nat, r: nat, t: nat, valL: T, valR: T)
      requires IsMonoid(op, e()) && |d| == 2 * n && Internal(op, d, n)
      requires n <= lo && l < r && Spans(d, lo, hi, l, r, t, valL, valR)
      ensures l < |d| && Spans(d, lo, hi, l + 1, r, t, op(valL, d[l]), valR)
    {
      LoNext(l, t);
      LoMono(l + 1, r, t);
      LoAtLeast(l, t);
      NodeFold(op, e(), d, n, l, t);
      FoldSplit(op, e(), d, lo, Lo(l, t), Lo(l + 1, t));
    }

    /** Consuming the left child r - 1 on the right extends valR by node r - 1. */
    lemma AdvanceRight(d: seq<T>, lo: nat, hi: nat, l: nat, r: nat, t: nat, valL: T, valR: T)
      requires IsMonoid(op, e()) && |d| == 2 * n && Internal(op, d, n)
      requires n <= lo && l < r && Spans(d, lo, hi, l, r, t, valL, valR)
      ensures r - 1 < |d| && Spans(d, lo, hi, l, r - 1, t, valL, op(d[r - 1], valR))
    {
      LoNext(r - 1, t);
      LoMono(l, r - 1, t);
      LoAtLeast(r - 1, t);
      NodeFold(op, e(), d, n, r - 1, t);
      FoldSplit(op, e(), d, Lo(r - 1, t), Lo(r, t), hi);
    }

    /** Once both ends are left children, moving to the parents keeps the spans. */
    lemma Halve(d: seq<T>, lo: nat, hi: nat, l: nat, r: nat, t: nat, valL: T, valR: T)
      requires l % 2 == 0 && r % 2 == 0 && Spans(d, lo, hi, l, r, t, valL, valR)
      ensures Spans(d, lo, hi, l / 2, r / 2, t + 1, valL, valR)
    {
      HalfLo(l, t);
      HalfLo(r, t);
    }

    /** When the two spans meet, valL and valR together fold the range. */
    lemma ProductDone(d: seq<T>, l0: nat, r0: nat, m: nat)
      requires IsMonoid(op, e()) && d == data[..] && data.Length == 2 * n
      requires l0 <= r0 <= n && n + l0 <= m <= n + r0
      ensures op(Fold(op, e(), d[n + l0..m]), Fold(op, e(), d[m..n + r0]))
              == Fold(op, e(), Leaves()[l0..r0])
    {
      FoldSplit(op, e(), d, n + l0, m, n + r0);
      SliceOfSlice(d, n, 2 * n, l0, r0);
      assert Leaves() == d[n..2 * n];
    }

    /** ProductAll: Product(0, n). Reading data[1] instead would not do:
        when n is not a power of two, data[1] is not the in-order fold of
        the leaves. */
    method ProductAll() returns (res: T)
      requires Valid() && IsMonoid(op, e())
      ensures res == Fold(op, e(), Leaves())
    {
      res := Product(0, n);
      assert Leaves()[0..n] == Leaves();
    }
  }
}
