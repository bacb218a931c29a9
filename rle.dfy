/** Run-length encoding (algorithm/rle/rle.go). */
module Rle {

  /** One run: count copies of value. */
  datatype Run<T> = Run(value: T, count: int)

  /** c copies of v (none when c <= 0). */
  function Repeat<T>(v: T, c: int): (s: seq<T>)
    ensures |s| == if c <= 0 then 0 else c
    ensures forall i :: 0 <= i < |s| ==> s[i] == v
    decreases c
  {
    if c <= 0 then [] else Repeat(v, c - 1) + [v]
  }

  /** The sequence a list of runs stands for. */
  function Expand<T>(runs: seq<Run<T>>): seq<T> {
    if |runs| == 0 then []
    else Expand(runs[..|runs| - 1]) + Repeat(runs[|runs| - 1].value, runs[|runs| - 1].count)
  }

  /** Sum of the counts. */
  function TotalCount<T>(runs: seq<Run<T>>): int {
    if |runs| == 0 then 0 else TotalCount(runs[..|runs| - 1]) + runs[|runs| - 1].count
  }

  /** Runs i-1 and i carry different values. */
  ghost predicate Separated<T>(runs: seq<Run<T>>, i: int)
    requires 0 < i < |runs|
  {
    runs[i - 1].value != runs[i].value
  }

  /** The shape RunLengthEncoding produces: every count at least 1 and no two
      neighbouring runs with the same value. */
  ghost predicate Canonical<T>(runs: seq<Run<T>>) {
    && (forall i :: 0 <= i < |runs| ==> runs[i].count >= 1)
    && (forall i :: 0 < i < |runs| ==> Separated(runs, i))
  }

  lemma CanonicalPrefix<T>(runs: seq<Run<T>>, n: int)
    requires Canonical(runs) && 0 <= n <= |runs|
    ensures Canonical(runs[..n])
  {
    forall i | 0 < i < n
      ensures Separated(runs[..n], i)
    {
      assert Separated(runs, i);
    }
  }

  /** RunLengthEncoding(s): extends the last run while the value repeats and
      starts a new run otherwise. The runs expand back to s and are canonical. */
  method RunLengthEncoding<T(==)>(s: seq<T>) returns (res: seq<Run<T>>)
    ensures Expand(res) == s
    ensures Canonical(res)
  {
    res := [];
    for k := 0 to |s|
      invariant Expand(res) == s[..k]
      invariant Canonical(res)
      invariant k > 0 ==> |res| > 0 && res[|res| - 1].value == s[k - 1]
    {
      var v := s[k];
      var n := |res|;
      assert s[..k + 1] == s[..k] + [v];
      if n > 0 && res[n - 1].value == v {
        ExtendLast(res, v);
        res := res[n - 1 := Run(v, res[n - 1].count + 1)];
      } else {
        AppendRun(res, v);
        res := res + [Run(v, 1)];
      }
      assert Expand(res) == s[..k + 1];
    }
  }

  /** Counting one more copy in the last run appends its value. */
  lemma ExtendLast<T>(runs: seq<Run<T>>, v: T)
    requires Canonical(runs) && |runs| > 0 && runs[|runs| - 1].value == v
    ensures var n := |runs|;
            var next := runs[n - 1 := Run(v, runs[n - 1].count + 1)];
            Expand(next) == Expand(runs) + [v] && Canonical(next) && next[n - 1].value == v
  {
    var n := |runs|;
    var next := runs[n - 1 := Run(v, runs[n - 1].count + 1)];
    assert next[..n - 1] == runs[..n - 1];
    forall i | 0 < i < n
      ensures Separated(next, i)
    {
      assert Separated(runs, i);
    }
  }

  /** A new run of one copy of a value that differs from the last run. */
  lemma AppendRun<T>(runs: seq<Run<T>>, v: T)
    requires Canonical(runs) && (|runs| > 0 ==> runs[|runs| - 1].value != v)
    ensures Expand(runs + [Run(v, 1)]) == Expand(runs) + [v]
    ensures Canonical(runs + [Run(v, 1)])
    ensures (runs + [Run(v, 1)])[|runs|].value == v
  {
    var n := |runs|;
    var next := runs + [Run(v, 1)];
    assert next[..n] == runs;
    assert Repeat(v, 1) == [v] by {
      assert Repeat(v, 0) == [];
    }
    assert Expand(next) == Expand(runs) + Repeat(v, 1);
    forall i | 0 < i < n
      ensures Separated(next, i)
    {
      assert Separated(runs, i);
    }
    assert n > 0 ==> Separated(next, n);
  }

  /** The expansion is as long as the counts add up to, and at least as long
      as the number of runs. */
  lemma {:induction false} ExpandLength<T>(runs: seq<Run<T>>)
    requires Canonical(runs)
    ensures |Expand(runs)| == TotalCount(runs)
    ensures |runs| <= |Expand(runs)|
  {
    if |runs| > 0 {
      CanonicalPrefix(runs, |runs| - 1);
      ExpandLength(runs[..|runs| - 1]);
    }
  }

  /** The last run of a canonical list is the whole trailing block of equal
      elements of the expansion. */
  lemma LastBlock<T>(runs: seq<Run<T>>)
    requires Canonical(runs) && |runs| > 0
    ensures var e, last := Expand(runs), runs[|runs| - 1];
            && last.count <= |e|
            && (forall i :: |e| - last.count <= i < |e| ==> e[i] == last.value)
            && (|e| > last.count ==> e[|e| - last.count - 1] != last.value)
  {
    var n := |runs|;
    var e, last := Expand(runs), runs[n - 1];
    var front := Expand(runs[..n - 1]);
    assert e == front + Repeat(last.value, last.count);
    if n > 1 {
      var prev := runs[n - 2];
      assert runs[..n - 1][..n - 2] == runs[..n - 2];
      assert front == Expand(runs[..n - 2]) + Repeat(prev.value, prev.count);
      assert Separated(runs, n - 1);
      assert e[|e| - last.count - 1] == front[|front| - 1] == prev.value;
    } else {
      assert runs[..0] == [];
    }
  }

  /** Canonical lists with the same expansion end with the same run. */
  lemma SameLastRun<T>(r1: seq<Run<T>>, r2: seq<Run<T>>)
    requires Canonical(r1) && Canonical(r2) && Expand(r1) == Expand(r2)
    requires |r1| > 0 && |r2| > 0
    ensures r1[|r1| - 1] == r2[|r2| - 1]
  {
    var e := Expand(r1);
    var a, b := r1[|r1| - 1], r2[|r2| - 1];
    LastBlock(r1);
    LastBlock(r2);
    assert a.value == e[|e| - 1] == b.value;
  }

  /** Canonical runs are determined by their expansion: RunLengthEncoding
      returns the only canonical encoding of its input. */
  lemma {:induction false} EncodingUnique<T>(r1: seq<Run<T>>, r2: seq<Run<T>>)
    requires Canonical(r1) && Canonical(r2) && Expand(r1) == Expand(r2)
    ensures r1 == r2
    decreases |r1|
  {
    ExpandLength(r1);
    ExpandLength(r2);
    if |r1| > 0 && |r2| > 0 {
      var e := Expand(r1);
      var n1, n2 := |r1|, |r2|;
      var a, b := r1[n1 - 1], r2[n2 - 1];
      SameLastRun(r1, r2);
      LastBlock(r1);
      assert Expand(r1[..n1 - 1]) == e[..|e| - a.count];
      assert Expand(r2[..n2 - 1]) == e[..|e| - b.count];
      CanonicalPrefix(r1, n1 - 1);
      CanonicalPrefix(r2, n2 - 1);
      EncodingUnique(r1[..n1 - 1], r2[..n2 - 1]);
      assert r1 == r1[..n1 - 1] + [a] && r2 == r2[..n2 - 1] + [b];
    }
  }
}
