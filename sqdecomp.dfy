/** Lazy square-root decomposition (package sqdecomp): a fixed-length sequence
    cut into blocks of `blockSize` elements; each block caches the monoid
    product of its elements and may carry one deferred update. */
module SqDecomp {
  import opened Algebra

  type Pos = x: int | x >= 1 witness 1

  /** math.Round(math.Sqrt(n)) on integers: the k with
      (k - 1/2)^2 < n < (k + 1/2)^2, i.e. k*k - k < n <= k*k + k. */
  function RoundSqrt(n: nat): (k: nat)
    ensures n == 0 ==> k == 0
    ensures n >= 1 ==> 1 <= k && k * k - k < n <= k * k + k
  {
    if n == 0 then 0 else RoundSqrtFrom(n, 1)
  }

  function RoundSqrtFrom(n: nat, k: nat): (r: nat)
    requires 1 <= k && k * k - k < n
    ensures 1 <= r && r * r - r < n <= r * r + r
    decreases n - k
  {
    if n <= k * k + k then k
    else
      assert (k + 1) * (k + 1) - (k + 1) == k * k + k;
      RoundSqrtFrom(n, k + 1)
  }

  /** The caller-supplied algebra, with the laws the structure relies on but
      never checks. The composition law is stated in the argument order the
      source uses when it defers an update on top of an older one:
      compositionFunc(older, newer). The block law is only ever used on full
      blocks, which hold exactly `blockSize` elements. */
  ghost predicate Lawful<S(!new), F(!new)>(
    blockSize: int, e: () -> S, productFunc: Option<(S, S) -> S>, id: () -> F,
    mappingFunc: (F, S) -> S, mappingBlockFunc: (F, S) -> S, compositionFunc: (F, F) -> F)
  {
    && IdLaw(id, mappingFunc)
    && CompositionLaw(mappingFunc, compositionFunc)
    && (productFunc.Some? ==> IsMonoid(productFunc.value, e()))
    && (productFunc.Some? ==> BlockLaw(blockSize, e, productFunc.value, mappingFunc, mappingBlockFunc))
  }

  /** The identity update changes nothing. */
  ghost predicate IdLaw<S(!new), F(!new)>(id: () -> F, mappingFunc: (F, S) -> S) {
    forall x :: mappingFunc(id(), x) == x
  }

  /** compositionFunc(g, f) is "g, then f". */
  ghost predicate CompositionLaw<S(!new), F(!new)>(mappingFunc: (F, S) -> S, compositionFunc: (F, F) -> F) {
    forall g, f, x {:trigger mappingFunc(compositionFunc(g, f), x)} ::
      mappingFunc(compositionFunc(g, f), x) == mappingFunc(f, mappingFunc(g, x))
  }

  /** mappingBlockFunc(f, product of a full block) is the product of the
      mapped block. */
  ghost predicate BlockLaw<S(!new), F(!new)>(
    blockSize: int, e: () -> S, op: (S, S) -> S, mappingFunc: (F, S) -> S, mappingBlockFunc: (F, S) -> S)
  {
    forall f, xs {:trigger mappingBlockFunc(f, Fold(op, e(), xs))} ::
      |xs| == blockSize ==>
      mappingBlockFunc(f, Fold(op, e(), xs)) == Fold(op, e(), MapSeq(mappingFunc, f, xs))
  }

  /** Every element of `xs` with the update `f` applied. */
  function MapSeq<S, F>(mappingFunc: (F, S) -> S, f: F, xs: seq<S>): (ys: seq<S>)
    ensures |ys| == |xs|
    ensures forall i :: 0 <= i < |xs| ==> ys[i] == mappingFunc(f, xs[i])
  {
    seq(|xs|, i requires 0 <= i < |xs| => mappingFunc(f, xs[i]))
  }

  /** A nil mappingBlockFunc falls back to mappingFunc. */
  function BlockMapping<S, F>(mappingFunc: (F, S) -> S, mappingBlockFunc: Option<(F, S) -> S>): (F, S) -> S {
    if mappingBlockFunc.Some? then mappingBlockFunc.value else mappingFunc
  }

  function Min(a: int, b: int): int {
    if a < b then a else b
  }

  class RangeSqrtDecomposition<S(!new), F(!new)> {
    const n: nat
    const blockSize: Pos

    const data: array<S>
    const result: array<S>
    const lazyApply: array<F>
    const isLazy: array<bool>

    const e: () -> S
    const productFunc: Option<(S, S) -> S>
    const id: () -> F
    const mappingFunc: (F, S) -> S
    const mappingBlockFunc: (F, S) -> S
    const compositionFunc: (F, F) -> F

    /** (n + blockSize - 1) / blockSize blocks, the last one possibly shorter
        (see NumBlocksDiv for the division form allocated by the constructor). */
    ghost function NumBlocks(): nat {
      if n == 0 then 0 else BlockIdx(n - 1) + 1
    }

    /** nowBlock: the block of index i, with Go's truncating division (so
        nowBlock(-1) is 0 unless blockSize is 1). */
    function NowBlock(i: int): int {
      GoQuo(i, blockSize)
    }

    /** First index of block b, b * blockSize, defined by repeated addition so
        that the solver only ever reasons linearly about it (StartMul). */
    ghost function Start(b: nat): nat {
      if b == 0 then 0 else Start(b - 1) + blockSize
    }

    /** The block holding index i, i / blockSize (see DivIdx). */
    ghost function BlockIdx(i: nat): nat
      decreases i
    {
      if i < blockSize then 0 else BlockIdx(i - blockSize) + 1
    }

    // ---------------------------------------------------------------
    // Abstract view, stated over plain sequences of the array contents.

    /** The value the caller sees at index i: the stored element with the
        block's pending update applied, if there is one. */
    ghost function LogicalAt(d: seq<S>, lz: seq<F>, il: seq<bool>, i: nat): S
      requires i < |d|
    {
      var b := BlockIdx(i);
      if b < |il| && b < |lz| && il[b] then mappingFunc(lz[b], d[i]) else d[i]
    }

    ghost function Logical(d: seq<S>, lz: seq<F>, il: seq<bool>): (v: seq<S>)
      ensures |v| == |d|
      ensures forall i :: 0 <= i < |d| ==> v[i] == LogicalAt(d, lz, il, i)
    {
      seq(|d|, i requires 0 <= i < |d| => LogicalAt(d, lz, il, i))
    }

    /** The logical values of the whole structure. */
    ghost function Values(): seq<S>
      reads data, lazyApply, isLazy
    {
      Logical(data[..], lazyApply[..], isLazy[..])
    }

    /** `v` with update f applied at the indices in [lo, hi). */
    ghost function MapRange(v: seq<S>, lo: int, hi: int, f: F): (w: seq<S>)
      ensures |w| == |v|
      ensures forall j :: 0 <= j < |v| ==> w[j] == if lo <= j < hi then mappingFunc(f, v[j]) else v[j]
    {
      seq(|v|, j requires 0 <= j < |v| => if lo <= j < hi then mappingFunc(f, v[j]) else v[j])
    }

    /** The elements of block b: d[b*B .. min(b*B + B, n)). */
    ghost function BlockOf(d: seq<S>, b: nat): seq<S> {
      d[Min(Start(b), |d|)..Min(Start(b) + blockSize, |d|)]
    }

    /** Caches: result[c] is the fold of block c's stored elements, for every
        block c other than `except` (pass -1 to demand all of them). */
    ghost predicate FoldedExcept(d: seq<S>, res: seq<S>, except: int) {
      productFunc.Some? ==>
        |res| == NumBlocks() &&
        forall c :: 0 <= c < NumBlocks() && c != except ==>
          res[c] == Fold(productFunc.value, e(), BlockOf(d, c))
    }

    /** A block that is not lazy carries the identity update. */
    ghost predicate Reset(lz: seq<F>, il: seq<bool>) {
      forall b :: 0 <= b < |il| && b < |lz| && !il[b] ==> lz[b] == id()
    }

    ghost predicate Shape() {
      && n >= 1
      && data.Length == n
      && lazyApply.Length == NumBlocks()
      && isLazy.Length == NumBlocks()
      && (productFunc.Some? ==> result.Length == NumBlocks())
      && data != result
      && result as object != lazyApply && result as object != isLazy
      && data as object != lazyApply && data as object != isLazy
      && lazyApply as object != isLazy
      && Lawful(blockSize, e, productFunc, id, mappingFunc, mappingBlockFunc, compositionFunc)
    }

    ghost predicate ValidExcept(b: int)
      reads data, result, lazyApply, isLazy
    {
      Shape() && Reset(lazyApply[..], isLazy[..]) && FoldedExcept(data[..], result[..], b)
    }

    ghost predicate Valid()
      reads data, result, lazyApply, isLazy
    {
      ValidExcept(-1)
    }

    // ---------------------------------------------------------------
    // Construction

    /** NewRangeSqrtDecompositionWith: the store takes a private copy of s.
        The caches are set to e() without folding the seeded elements, so the
        cache invariant holds exactly when every seeded block folds to e(). */
    constructor With(s: array<S>, e: () -> S, productFunc: Option<(S, S) -> S>, id: () -> F,
                     mappingFunc: (F, S) -> S, mappingBlockFunc: Option<(F, S) -> S>,
                     compositionFunc: (F, F) -> F)
      requires s.Length >= 1
      requires Lawful(RoundSqrt(s.Length), e, productFunc, id, mappingFunc,
                      BlockMapping(mappingFunc, mappingBlockFunc), compositionFunc)
      ensures fresh(data) && fresh(result) && fresh(lazyApply) && fresh(isLazy)
      ensures n == s.Length && blockSize == RoundSqrt(s.Length)
      ensures this.e == e && this.productFunc == productFunc && this.id == id
      ensures this.mappingFunc == mappingFunc && this.compositionFunc == compositionFunc
      ensures this.mappingBlockFunc == BlockMapping(mappingFunc, mappingBlockFunc)
      ensures Shape() && Reset(lazyApply[..], isLazy[..])
      ensures data[..] == s[..] && Values() == s[..]
      ensures forall b :: 0 <= b < NumBlocks() ==> !isLazy[b] && lazyApply[b] == id()
      ensures productFunc.Some? ==> forall b :: 0 <= b < NumBlocks() ==> result[b] == e()
      ensures Valid() <==>
        (productFunc.Some? ==>
          forall b :: 0 <= b < NumBlocks() ==> Fold(productFunc.value, e(), BlockOf(s[..], b)) == e())
    {
      var size := s.Length;
      var bs := RoundSqrt(size);
      var nb := (size + bs - 1) / bs;
      n := size;
      blockSize := bs;
      data := new S[size](i requires 0 <= i < size reads s => s[i]);
      var unit := e();
      if productFunc.Some? {
        result := new S[nb](_ => unit);
      } else {
        result := new S[0](_ => unit);
      }
      var idf := id();
      lazyApply := new F[nb](_ => idf);
      isLazy := new bool[nb](_ => false);
      this.e := e;
      this.productFunc := productFunc;
      this.id := id;
      this.mappingFunc := mappingFunc;
      this.mappingBlockFunc := BlockMapping(mappingFunc, mappingBlockFunc);
      this.compositionFunc := compositionFunc;
      new;
      NumBlocksDiv();
      assert data[..] == s[..];
      LogicalIdle(data[..], lazyApply[..], isLazy[..]);
    }

    /** NewRangeSqrtDecomposition: n copies of e(), then the seeded
        constructor; on this path every cache is correct. */
    static method New(n: int, e: () -> S, productFunc: Option<(S, S) -> S>, id: () -> F,
                      mappingFunc: (F, S) -> S, mappingBlockFunc: Option<(F, S) -> S>,
                      compositionFunc: (F, F) -> F)
      returns (sd: RangeSqrtDecomposition<S, F>)
      requires n >= 1
      requires Lawful(RoundSqrt(n), e, productFunc, id, mappingFunc,
                      BlockMapping(mappingFunc, mappingBlockFunc), compositionFunc)
      ensures fresh(sd.data) && fresh(sd.result) && fresh(sd.lazyApply) && fresh(sd.isLazy)
      ensures sd.Valid() && sd.n == n
      ensures sd.e == e && sd.productFunc == productFunc && sd.id == id
      ensures sd.mappingFunc == mappingFunc && sd.compositionFunc == compositionFunc
      ensures sd.Values() == seq(n, _ => e())
    {
      var data := new S[n](_ => e());
      ghost var units := data[..];
      assert units == seq(n, _ => e());
      sd := new RangeSqrtDecomposition.With(data, e, productFunc, id, mappingFunc, mappingBlockFunc, compositionFunc);
      if productFunc.Some? {
        sd.NeutralBlocks(units);
      }
    }

    /** Blocks of neutral elements fold to the neutral element. */
    lemma NeutralBlocks(s: seq<S>)
      requires productFunc.Some? && IsMonoid(productFunc.value, e())
      requires forall i :: 0 <= i < |s| ==> s[i] == e()
      ensures forall b :: 0 <= b < NumBlocks() ==> Fold(productFunc.value, e(), BlockOf(s, b)) == e()
    {
      forall b | 0 <= b < NumBlocks()
        ensures Fold(productFunc.value, e(), BlockOf(s, b)) == e()
      {
        FoldOfNeutrals(productFunc.value, e(), BlockOf(s, b));
      }
    }

    function Len(): (r: nat)
      requires Shape()
      reads data, lazyApply, isLazy
      ensures r == |Values()|
    {
      n
    }

    // ---------------------------------------------------------------
    // Block primitives

    /** calcResult: refold block b's cache from its stored elements. */
    method CalcResult(b: nat)
      requires ValidExcept(b) && b < NumBlocks()
      modifies result
      ensures Valid()
      ensures productFunc.Some? ==> result[b] == Fold(productFunc.value, e(), BlockOf(data[..], b))
    {
      if productFunc.None? {
        return;
      }
      var op := productFunc.value;
      BlockInRange(b);
      StartMul(b);
      var l := b * blockSize;
      var r := Min(l + blockSize, n);
      ghost var res0 := result[..];
      result[b] := e();
      for i := l to r
        invariant result[b] == Fold(op, e(), data[l..i])
        invariant forall c :: 0 <= c < result.Length && c != b ==> result[c] == res0[c]
      {
        FoldSnoc(op, e(), data[l..i], data[i]);
        assert data[l..i + 1] == data[l..i] + [data[i]];
        result[b] := op(result[b], data[i]);
      }
      assert BlockOf(data[..], b) == data[l..r];
    }

    /** evalLazy: push block b's pending update into its elements. */
    method EvalLazy(b: nat)
      requires Valid() && b < NumBlocks()
      modifies data, result, lazyApply, isLazy
      ensures Valid()
      ensures Values() == old(Values())
      ensures !isLazy[b]
    {
      if !isLazy[b] {
        return;
      }
      BlockInRange(b);
      StartMul(b);
      var l := b * blockSize;
      var r := Min(l + blockSize, n);
      var f := lazyApply[b];
      ghost var d0, lz0, il0 := data[..], lazyApply[..], isLazy[..];
      MapData(l, r, f);
      isLazy[b] := false;
      lazyApply[b] := id();
      EvalLemma(d0, lz0, il0, b);
      assert lazyApply[..] == lz0[b := id()] && isLazy[..] == il0[b := false];
      OtherBlocksUnchanged(d0, data[..], b);
      CalcResult(b);
    }

    // ---------------------------------------------------------------
    // Point operations

    method Get(i: int) returns (v: S)
      requires Valid() && 0 <= i < n
      modifies data, result, lazyApply, isLazy
      ensures Valid() && Values() == old(Values())
      ensures v == old(Values())[i]
      ensures BlockIdx(i) < NumBlocks() && !isLazy[BlockIdx(i)]
    {
      IndexBlock(i);
      NowBlockIdx(i);
      EvalLazy(NowBlock(i));
      v := data[i];
    }

    method Set(i: int, x: S)
      requires Valid() && 0 <= i < n
      modifies data, result, lazyApply, isLazy
      ensures Valid()
      ensures Values() == old(Values())[i := x]
    {
      IndexBlock(i);
      NowBlockIdx(i);
      var b := NowBlock(i);
      EvalLazy(b);
      ghost var d0 := data[..];
      data[i] := x;
      PointLemma(d0, lazyApply[..], isLazy[..], i, x);
      OtherBlocksUnchanged(d0, data[..], b);
      CalcResult(b);
    }

    method Apply(i: int, f: F)
      requires Valid() && 0 <= i < n
      modifies data, result, lazyApply, isLazy
      ensures Valid()
      ensures Values() == MapRange(old(Values()), i, i + 1, f)
    {
      IndexBlock(i);
      NowBlockIdx(i);
      var b := NowBlock(i);
      EvalLazy(b);
      ghost var d0, v0 := data[..], Values();
      data[i] := mappingFunc(f, data[i]);
      PointLemma(d0, lazyApply[..], isLazy[..], i, mappingFunc(f, d0[i]));
      assert Values() == MapRange(v0, i, i + 1, f);
      OtherBlocksUnchanged(d0, data[..], b);
      CalcResult(b);
    }

    // ---------------------------------------------------------------
    // Range operations

    /** The loop `res = productFunc(res, data[i])` over [lo, hi) inside one
        block whose pending update has been evaluated. */
    method FoldInBlock(acc: S, b: nat, lo: int, hi: int) returns (res: S)
      requires Valid() && productFunc.Some? && b < NumBlocks() && !isLazy[b]
      requires Start(b) <= lo <= hi <= Start(b) + blockSize && hi <= n
      ensures res == productFunc.value(acc, Fold(productFunc.value, e(), Values()[lo..hi]))
    {
      EvaluatedSlice(b, lo, hi);
      res := FoldData(acc, lo, hi);
      FoldFrom(productFunc.value, e(), acc, data[lo..hi]);
    }

    /** In a block with no pending update the stored elements are the logical ones. */
    lemma EvaluatedSlice(b: nat, lo: int, hi: int)
      requires Valid() && b < NumBlocks() && !isLazy[b]
      requires Start(b) <= lo <= hi <= Start(b) + blockSize && hi <= n
      ensures data[lo..hi] == Values()[lo..hi]
    {
      forall i | lo <= i < hi
        ensures data[i] == Values()[i]
      {
        BlockIdxUnique(i, b);
      }
    }

    /** The loop `res = productFunc(res, data[i])` over [lo, hi). */
    method FoldData(acc: S, lo: int, hi: int) returns (res: S)
      requires productFunc.Some? && 0 <= lo <= hi <= data.Length
      ensures res == Fold(productFunc.value, acc, data[lo..hi])
    {
      var op := productFunc.value;
      res := acc;
      for i := lo to hi
        invariant res == Fold(op, acc, data[lo..i])
      {
        FoldSnoc(op, acc, data[lo..i], data[i]);
        assert data[lo..i + 1] == data[lo..i] + [data[i]];
        res := op(res, data[i]);
      }
    }

    /** evalLazy(b) followed by the loop `res = productFunc(res, data[i])` over
        [lo, hi): the partial-block step of Product. */
    method EvalAndFold(acc: S, b: nat, lo: int, hi: int) returns (res: S)
      requires Valid() && productFunc.Some? && b < NumBlocks()
      requires Start(b) <= lo <= hi <= Start(b) + blockSize && hi <= n
      modifies data, result, lazyApply, isLazy
      ensures Valid() && Values() == old(Values())
      ensures res == productFunc.value(acc, Fold(productFunc.value, e(), old(Values())[lo..hi]))
    {
      EvalLazy(b);
      res := FoldInBlock(acc, b, lo, hi);
    }

    /** The loop `data[i] = mappingFunc(f, data[i])` over [lo, hi) inside one
        evaluated block, followed by calcResult of that block. */
    method MapInBlock(b: nat, lo: int, hi: int, f: F)
      requires Valid() && b < NumBlocks() && !isLazy[b]
      requires Start(b) <= lo <= hi <= Start(b) + blockSize && hi <= n
      modifies data, result
      ensures Valid()
      ensures Values() == MapRange(old(Values()), lo, hi, f)
    {
      ghost var d0 := data[..];
      MapData(lo, hi, f);
      MapInBlockLemma(d0, lazyApply[..], isLazy[..], b, lo, hi, f);
      OtherBlocksUnchanged(d0, data[..], b);
      CalcResult(b);
    }

    /** The loop `data[i] = mappingFunc(f, data[i])` over [lo, hi). */
    method MapData(lo: int, hi: int, f: F)
      requires 0 <= lo <= hi <= data.Length
      modifies data
      ensures data[..] == MapRange(old(data[..]), lo, hi, f)
    {
      ghost var d0 := data[..];
      for i := lo to hi
        invariant data[..] == MapRange(d0, lo, i, f)
      {
        data[i] := mappingFunc(f, data[i]);
      }
    }

    /** What a full block contributes to Product: its cache, passed through
        mappingBlockFunc when the block carries a pending update. */
    ghost function BlockValue(res: seq<S>, lz: seq<F>, il: seq<bool>, b: nat): S
      requires b < |res| && b < |lz| && b < |il|
    {
      if il[b] then mappingBlockFunc(lz[b], res[b]) else res[b]
    }

    /** acc extended, block by block, by the contributions of blocks [lo, hi). */
    ghost function BlocksFrom(op: (S, S) -> S, acc: S, res: seq<S>, lz: seq<F>, il: seq<bool>, lo: nat, hi: nat): S
      requires lo <= hi <= |res| && hi <= |lz| && hi <= |il|
      decreases hi
    {
      if hi == lo then acc else op(BlocksFrom(op, acc, res, lz, il, lo, hi - 1), BlockValue(res, lz, il, hi - 1))
    }

    /** The middle loop of Product: each full block in [lCeil, rFloor)
        contributes its cache, passed through mappingBlockFunc if it is lazy. */
    method FoldFullBlocks(acc: S, lCeil: nat, rFloor: nat) returns (res: S)
      requires Valid() && productFunc.Some?
      requires lCeil <= rFloor && Start(lCeil) <= Start(rFloor) <= n
      ensures res == productFunc.value(acc, Fold(productFunc.value, e(), Values()[Start(lCeil)..Start(rFloor)]))
    {
      BlocksUpTo(rFloor);
      res := FoldCaches(acc, lCeil, rFloor);
      FullBlocks(data[..], result[..], lazyApply[..], isLazy[..], acc, lCeil, rFloor);
    }

    /** The loop itself, stated over the caches alone. */
    method FoldCaches(acc: S, lo: nat, hi: nat) returns (res: S)
      requires productFunc.Some? && lo <= hi <= result.Length && hi <= lazyApply.Length && hi <= isLazy.Length
      ensures res == BlocksFrom(productFunc.value, acc, result[..], lazyApply[..], isLazy[..], lo, hi)
    {
      var op := productFunc.value;
      res := acc;
      for b := lo to hi
        invariant res == BlocksFrom(op, acc, result[..], lazyApply[..], isLazy[..], lo, b)
      {
        if isLazy[b] {
          res := op(res, mappingBlockFunc(lazyApply[b], result[b]));
        } else {
          res := op(res, result[b]);
        }
      }
    }

    /** Product(l, r): the fold of the logical values over [l, r). */
    method Product(l: int, r: int) returns (res: S)
      requires Valid() && productFunc.Some?
      requires 0 <= l <= r <= n
      modifies data, result, lazyApply, isLazy
      ensures Valid() && Values() == old(Values())
      ensures res == Fold(productFunc.value, e(), old(Values())[l..r])
    {
      ghost var v := Values();
      var op := productFunc.value;
      var lb, rb := NowBlock(l), NowBlock(r - 1);
      res := e();
      if lb == rb {
        SameBlock(l, r);
        res := EvalAndFold(res, lb, l, r);
        assert res == op(e(), Fold(op, e(), v[l..r]));
        return;
      }
      var lCeil := (l + blockSize - 1) / blockSize;
      var rFloor := r / blockSize;
      CeilIdx(l);
      DivIdx(r);
      res := ProductSpan(l, r, lCeil, rFloor);
    }

    /** Product when l and r - 1 lie in different blocks: the partial block
        on the left, the full blocks [lCeil, rFloor), the partial block on the
        right. */
    method ProductSpan(l: int, r: int, lCeil: nat, rFloor: nat) returns (res: S)
      requires Valid() && productFunc.Some?
      requires 0 <= l <= r <= n && NowBlock(l) != NowBlock(r - 1)
      requires lCeil == (l + blockSize - 1) / blockSize && rFloor == r / blockSize
      requires lCeil == (if Start(BlockIdx(l)) == l then BlockIdx(l) else BlockIdx(l) + 1)
      requires rFloor == BlockIdx(r)
      modifies data, result, lazyApply, isLazy
      ensures Valid() && Values() == old(Values())
      ensures res == Fold(productFunc.value, e(), old(Values())[l..r])
    {
      ghost var v := Values();
      var op := productFunc.value;
      var lb, rb := NowBlock(l), NowBlock(r - 1);
      Split(l, r, lCeil, rFloor);
      StartMul(lCeil);
      StartMul(rFloor);
      res := e();
      var lMax := lCeil * blockSize;
      if l < lMax {
        res := EvalAndFold(res, lb, l, lMax);
        assert res == op(e(), Fold(op, e(), v[l..lMax]));
      }
      assert res == Fold(op, e(), v[l..lMax]);
      res := FoldFullBlocks(res, lCeil, rFloor);
      var rMin := rFloor * blockSize;
      FoldSplit(op, e(), v, l, lMax, rMin);
      assert res == Fold(op, e(), v[l..rMin]);
      if rMin < r {
        res := EvalAndFold(res, rb, rMin, r);
        FoldSplit(op, e(), v, l, rMin, r);
      } else {
        assert rMin == r;
      }
      assert res == Fold(op, e(), v[l..r]);
    }

    /** The middle loop of ApplyRange: f is deferred on every full block in
        [lCeil, rFloor) by composing it after the block's pending update. */
    method DeferBlocks(lCeil: nat, rFloor: nat, f: F)
      requires Valid() && lCeil <= rFloor && Start(lCeil) <= Start(rFloor) <= n
      modifies lazyApply, isLazy
      ensures Valid()
      ensures Values() == MapRange(old(Values()), Start(lCeil), Start(rFloor), f)
    {
      ghost var v := Values();
      StartMono(lCeil, rFloor);
      MapRangeEmpty(v, Start(lCeil), f);
      for b := lCeil to rFloor
        invariant Valid()
        invariant Start(lCeil) <= Start(b) <= Start(rFloor)
        invariant Values() == MapRange(v, Start(lCeil), Start(b), f)
      {
        StartMono(b + 1, rFloor);
        BlockCount(b);
        DeferLemma(data[..], lazyApply[..], isLazy[..], b, f);
        lazyApply[b] := compositionFunc(lazyApply[b], f);
        isLazy[b] := true;
        MapRangeConcat(v, Start(lCeil), Start(b), Start(b) + blockSize, f);
      }
    }

    /** ApplyRange(l, r, f): f applied to every logical value in [l, r). */
    method ApplyRange(l: int, r: int, f: F)
      requires Valid() && 0 <= l <= r <= n
      modifies data, result, lazyApply, isLazy
      ensures Valid()
      ensures Values() == MapRange(old(Values()), l, r, f)
    {
      ghost var v := Values();
      var lb, rb := NowBlock(l), NowBlock(r - 1);
      if lb == rb {
        SameBlock(l, r);
        EvalLazy(lb);
        MapInBlock(lb, l, r, f);
        return;
      }
      var lCeil := (l + blockSize - 1) / blockSize;
      var rFloor := r / blockSize;
      CeilIdx(l);
      DivIdx(r);
      Split(l, r, lCeil, rFloor);
      StartMul(lCeil);
      StartMul(rFloor);
      var lMax := lCeil * blockSize;
      if l < lMax {
        EvalLazy(lb);
        MapInBlock(lb, l, lMax, f);
      } else {
        assert lMax == l;
      }
      MapRangeEmpty(v, l, f);
      ghost var v1 := Values();
      assert v1 == MapRange(v, l, lMax, f);
      DeferBlocks(lCeil, rFloor, f);
      var rMin := rFloor * blockSize;
      MapRangeConcat(v, l, lMax, rMin, f);
      ghost var v2 := Values();
      assert v2 == MapRange(v, l, rMin, f);
      if rMin < r {
        EvalLazy(rb);
        MapInBlock(rb, rMin, r, f);
      } else {
        assert rMin == r;
      }
      MapRangeEmpty(v2, r, f);
      MapRangeConcat(v, l, rMin, r, f);
    }

    // ---------------------------------------------------------------
    // Arithmetic of block indices

    lemma StartMul(b: nat)
      ensures Start(b) == b * blockSize
    {
      if b > 0 {
        StartMul(b - 1);
      }
    }

    lemma StartNext(b: nat)
      ensures Start(b + 1) == Start(b) + blockSize
    {
    }

    lemma StartPrev(b: nat)
      requires b >= 1
      ensures Start(b) == Start(b - 1) + blockSize
    {
    }

    lemma {:induction false} StartMono(a: nat, c: nat)
      requires a <= c
      ensures Start(a) <= Start(c)
      ensures a < c ==> Start(a) + blockSize <= Start(c)
      decreases c
    {
      if a < c {
        StartMono(a, c - 1);
      }
    }

    lemma {:induction false} BlockIdxSpec(i: nat)
      ensures Start(BlockIdx(i)) <= i < Start(BlockIdx(i)) + blockSize
      decreases i
    {
      if i >= blockSize {
        BlockIdxSpec(i - blockSize);
      }
    }

    /** Index i lies in block b exactly when Start(b) <= i < Start(b) + B. */
    lemma BlockIdxUnique(i: nat, b: nat)
      requires Start(b) <= i < Start(b) + blockSize
      ensures BlockIdx(i) == b
    {
      var k := BlockIdx(i);
      BlockIdxSpec(i);
      if k < b {
        StartMono(k, b);
      } else if k > b {
        StartMono(b, k);
      }
    }

    /** BlockIdx is Dafny's (and, on non-negative operands, Go's) i / blockSize. */
    lemma DivIdx(i: nat)
      ensures i / blockSize == BlockIdx(i)
    {
      var q := i / blockSize;
      StartMul(q);
      BlockIdxUnique(i, q);
    }

    lemma NowBlockIdx(i: nat)
      ensures NowBlock(i) == BlockIdx(i)
    {
      GoDivision(i, blockSize);
      DivIdx(i);
    }

    /** The constructor allocates (n + blockSize - 1) / blockSize blocks. */
    lemma NumBlocksDiv()
      requires n >= 1
      ensures (n + blockSize - 1) / blockSize == NumBlocks()
    {
      DivIdx(n + blockSize - 1);
    }

    /** The rounded-up block index (l + blockSize - 1) / blockSize. */
    lemma CeilIdx(l: nat)
      ensures (l + blockSize - 1) / blockSize
              == if Start(BlockIdx(l)) == l then BlockIdx(l) else BlockIdx(l) + 1
    {
      var k := BlockIdx(l);
      BlockIdxSpec(l);
      DivIdx(l + blockSize - 1);
      if Start(k) == l {
        BlockIdxUnique(l + blockSize - 1, k);
      } else {
        BlockIdxUnique(l + blockSize - 1, k + 1);
      }
    }

    /** The first index of every block is inside the sequence. */
    lemma BlockInRange(b: nat)
      requires b < NumBlocks()
      ensures Start(b) < n
    {
      BlockIdxSpec(n - 1);
      StartMono(b, BlockIdx(n - 1));
    }

    /** A block that starts inside the sequence is a real block. */
    lemma BlockCount(b: nat)
      requires Start(b) < n
      ensures b < NumBlocks()
    {
      BlockIdxSpec(n - 1);
      if b > BlockIdx(n - 1) {
        StartMono(BlockIdx(n - 1), b);
      }
    }

    /** Blocks [0, hi) all start inside the sequence when Start(hi) <= n. */
    lemma BlocksUpTo(hi: nat)
      requires Start(hi) <= n
      ensures hi <= NumBlocks()
    {
      if hi > 0 {
        StartNext(hi - 1);
        BlockCount(hi - 1);
      }
    }

    lemma IndexBlock(i: int)
      requires 0 <= i < n
      ensures BlockIdx(i) < NumBlocks()
      ensures Start(BlockIdx(i)) <= i < Start(BlockIdx(i)) + blockSize
    {
      BlockIdxSpec(i);
      BlockCount(BlockIdx(i));
    }

    /** When nowBlock(l) == nowBlock(r-1), [l, r) lies in that one real block. */
    lemma SameBlock(l: int, r: int)
      requires 1 <= n && 0 <= l <= r <= n && NowBlock(l) == NowBlock(r - 1)
      ensures 0 <= NowBlock(l) < NumBlocks()
      ensures Start(NowBlock(l)) <= l && r <= Start(NowBlock(l)) + blockSize
    {
      NowBlockIdx(l);
      IndexBlock(if l < n then l else n - 1);
      BlockIdxSpec(l);
      if r == 0 {
        BlockCount(0);
      } else {
        NowBlockIdx(r - 1);
        IndexBlock(r - 1);
      }
    }

    /** When nowBlock(l) != nowBlock(r-1): the rounded-up start block lCeil and
        the rounded-down end block rFloor split [l, r) into a left partial
        block, full blocks and a right partial block, in this order. */
    lemma Split(l: int, r: int, lCeil: nat, rFloor: nat)
      requires 0 <= l <= r <= n && NowBlock(l) != NowBlock(r - 1)
      requires lCeil == (if Start(BlockIdx(l)) == l then BlockIdx(l) else BlockIdx(l) + 1)
      requires rFloor == BlockIdx(r)
      ensures lCeil <= rFloor
      ensures l <= Start(lCeil) <= Start(rFloor) <= r
      ensures l < Start(lCeil) ==>
                0 <= NowBlock(l) < NumBlocks() && Start(NowBlock(l)) <= l
                && Start(lCeil) <= Start(NowBlock(l)) + blockSize
      ensures Start(rFloor) < r ==>
                0 <= NowBlock(r - 1) < NumBlocks() && Start(NowBlock(r - 1)) <= Start(rFloor)
                && r <= Start(NowBlock(r - 1)) + blockSize
    {
      SplitBounds(l, r, lCeil, rFloor);
      if l < Start(lCeil) {
        PartialLeft(l, lCeil);
      }
      if Start(rFloor) < r {
        PartialRight(r, rFloor);
      }
    }

    /** The full blocks [lCeil, rFloor) lie inside [l, r). */
    lemma SplitBounds(l: int, r: int, lCeil: nat, rFloor: nat)
      requires 0 <= l <= r <= n && NowBlock(l) != NowBlock(r - 1)
      requires lCeil == (if Start(BlockIdx(l)) == l then BlockIdx(l) else BlockIdx(l) + 1)
      requires rFloor == BlockIdx(r)
      ensures lCeil <= rFloor
      ensures l <= Start(lCeil) <= Start(rFloor) <= r
    {
      var lb := BlockIdx(l);
      BlockIdxSpec(l);
      BlockIdxSpec(r);
      StartNext(lb);
      NowBlockIdx(l);
      if r > 0 {
        NowBlockIdx(r - 1);
        if l < r {
          BlockIdxMono(l, r - 1);
          BlockIdxMono(r - 1, r);
        } else if Start(lb) != l {
          BlockIdxUnique(r - 1, lb);
        }
      }
      StartMono(lCeil, rFloor);
    }

    lemma {:induction false} BlockIdxMono(i: nat, j: nat)
      requires i <= j
      ensures BlockIdx(i) <= BlockIdx(j)
      decreases i
    {
      if i >= blockSize {
        BlockIdxMono(i - blockSize, j - blockSize);
      }
    }

    /** A partial block on the left: l is inside block nowBlock(l), which ends
        at the first full block. */
    lemma PartialLeft(l: nat, lCeil: nat)
      requires l < n && lCeil == (if Start(BlockIdx(l)) == l then BlockIdx(l) else BlockIdx(l) + 1)
      requires l < Start(lCeil)
      ensures 0 <= NowBlock(l) < NumBlocks() && Start(NowBlock(l)) <= l
      ensures Start(lCeil) <= Start(NowBlock(l)) + blockSize
    {
      NowBlockIdx(l);
      IndexBlock(l);
      StartNext(BlockIdx(l));
    }

    /** A partial block on the right: r - 1 is inside block rFloor, which
        starts after the last full block. */
    lemma PartialRight(r: nat, rFloor: nat)
      requires 0 < r <= n && rFloor == BlockIdx(r) && Start(rFloor) < r
      ensures 0 <= NowBlock(r - 1) < NumBlocks() && Start(NowBlock(r - 1)) <= Start(rFloor)
      ensures r <= Start(NowBlock(r - 1)) + blockSize
    {
      BlockIdxSpec(r);
      BlockIdxUnique(r - 1, rFloor);
      NowBlockIdx(r - 1);
      IndexBlock(r - 1);
    }

    // ---------------------------------------------------------------
    // How each step changes the logical values and the caches

    /** With no block lazy, the logical values are the stored ones. */
    lemma LogicalIdle(d: seq<S>, lz: seq<F>, il: seq<bool>)
      requires forall b :: 0 <= b < |il| ==> !il[b]
      ensures Logical(d, lz, il) == d
    {
      var v := Logical(d, lz, il);
      forall i | 0 <= i < |d|
        ensures v[i] == d[i]
      {
      }
      assert v == d;
    }

    lemma MapRangeEmpty(v: seq<S>, k: int, f: F)
      ensures MapRange(v, k, k, f) == v
    {
    }

    lemma MapRangeConcat(v: seq<S>, a: int, b: int, c: int, f: F)
      requires a <= b <= c
      ensures MapRange(MapRange(v, a, b, f), b, c, f) == MapRange(v, a, c, f)
    {
    }

    /** Changing elements of block b only leaves every other block's fold alone. */
    lemma OtherBlocksUnchanged(d0: seq<S>, d1: seq<S>, b: nat)
      requires |d0| == |d1| == n && b < NumBlocks()
      requires forall i :: 0 <= i < n && BlockIdx(i) != b ==> d1[i] == d0[i]
      ensures forall c :: 0 <= c < NumBlocks() && c != b ==> BlockOf(d1, c) == BlockOf(d0, c)
    {
      forall c | 0 <= c < NumBlocks() && c != b
        ensures BlockOf(d1, c) == BlockOf(d0, c)
      {
        BlockInRange(c);
        var lo, hi := Start(c), Min(Start(c) + blockSize, n);
        forall i | lo <= i < hi
          ensures d1[i] == d0[i]
        {
          BlockIdxUnique(i, c);
        }
      }
    }

    /** evalLazy keeps the logical values: the update moves from the block
        into its elements. */
    lemma EvalLemma(d0: seq<S>, lz: seq<F>, il: seq<bool>, b: nat)
      requires n >= 1 && |d0| == n && |lz| == |il| == NumBlocks() && b < NumBlocks() && il[b]
      ensures var d1 := MapRange(d0, Start(b), Min(Start(b) + blockSize, n), lz[b]);
        && Logical(d1, lz[b := id()], il[b := false]) == Logical(d0, lz, il)
        && forall i :: 0 <= i < n && BlockIdx(i) != b ==> d1[i] == d0[i]
    {
      var d1 := MapRange(d0, Start(b), Min(Start(b) + blockSize, n), lz[b]);
      forall i | 0 <= i < n
        ensures LogicalAt(d1, lz[b := id()], il[b := false], i) == LogicalAt(d0, lz, il, i)
        ensures BlockIdx(i) != b ==> d1[i] == d0[i]
      {
        IndexBlock(i);
        if Start(b) <= i < Start(b) + blockSize {
          BlockIdxUnique(i, b);
        }
      }
    }

    /** Overwriting one element of a non-lazy block overwrites its logical value. */
    lemma PointLemma(d0: seq<S>, lz: seq<F>, il: seq<bool>, i: nat, x: S)
      requires |d0| == n && |lz| == |il| == NumBlocks() && i < n
      requires BlockIdx(i) < NumBlocks() && !il[BlockIdx(i)]
      ensures Logical(d0[i := x], lz, il) == Logical(d0, lz, il)[i := x]
    {
    }

    /** Mapping elements inside a non-lazy block maps their logical values. */
    lemma MapInBlockLemma(d0: seq<S>, lz: seq<F>, il: seq<bool>, b: nat, lo: int, hi: int, f: F)
      requires |d0| == n && |lz| == |il| == NumBlocks() && b < NumBlocks() && !il[b]
      requires Start(b) <= lo <= hi <= Start(b) + blockSize && hi <= n
      ensures Logical(MapRange(d0, lo, hi, f), lz, il) == MapRange(Logical(d0, lz, il), lo, hi, f)
      ensures forall i :: 0 <= i < n && BlockIdx(i) != b ==> MapRange(d0, lo, hi, f)[i] == d0[i]
    {
      forall i | lo <= i < hi
        ensures BlockIdx(i) == b
      {
        BlockIdxUnique(i, b);
      }
    }

    /** Deferring f on a full block b: the new pending update
        compositionFunc(lazyApply[b], f) maps each logical value by f. */
    lemma DeferLemma(d: seq<S>, lz: seq<F>, il: seq<bool>, b: nat, f: F)
      requires n >= 1 && |d| == n && |lz| == |il| == NumBlocks() && b < NumBlocks()
      requires IdLaw(id, mappingFunc) && CompositionLaw(mappingFunc, compositionFunc)
      requires Reset(lz, il)
      ensures Logical(d, lz[b := compositionFunc(lz[b], f)], il[b := true])
              == MapRange(Logical(d, lz, il), Start(b), Start(b) + blockSize, f)
      ensures Reset(lz[b := compositionFunc(lz[b], f)], il[b := true])
    {
      var lz1, il1 := lz[b := compositionFunc(lz[b], f)], il[b := true];
      var w := MapRange(Logical(d, lz, il), Start(b), Start(b) + blockSize, f);
      forall i | 0 <= i < n
        ensures LogicalAt(d, lz1, il1, i) == w[i]
      {
        IndexBlock(i);
        if Start(b) <= i < Start(b) + blockSize {
          BlockIdxUnique(i, b);
        }
      }
    }

    /** A full block's contribution to Product: its cache, passed through
        mappingBlockFunc when the block is lazy, is the fold of its logical
        values. */
    lemma FullBlock(d: seq<S>, res: seq<S>, lz: seq<F>, il: seq<bool>, b: nat, end: nat)
      requires n >= 1 && productFunc.Some? && |d| == n && |lz| == |il| == NumBlocks()
      requires BlockLaw(blockSize, e, productFunc.value, mappingFunc, mappingBlockFunc)
      requires FoldedExcept(d, res, -1)
      requires end == Start(b) + blockSize <= n
      ensures b < NumBlocks()
      ensures BlockValue(res, lz, il, b) == Fold(productFunc.value, e(), Logical(d, lz, il)[Start(b)..end])
    {
      BlockCount(b);
      var op := productFunc.value;
      var lo := Start(b);
      var blk := d[lo..end];
      FullCache(d, res, b);
      FullBlockLogical(d, lz, il, b);
      var v := Logical(d, lz, il)[lo..end];
      if il[b] {
        assert v == MapSeq(mappingFunc, lz[b], blk);
        assert |blk| == blockSize;
        assert BlockValue(res, lz, il, b) == mappingBlockFunc(lz[b], Fold(op, e(), blk));
      } else {
        assert v == blk;
      }
    }

    /** The cache of a full block folds its blockSize stored elements. */
    lemma FullCache(d: seq<S>, res: seq<S>, b: nat)
      requires productFunc.Some? && FoldedExcept(d, res, -1)
      requires b < NumBlocks() && Start(b) + blockSize <= |d|
      ensures res[b] == Fold(productFunc.value, e(), d[Start(b)..Start(b) + blockSize])
    {
      assert BlockOf(d, b) == d[Start(b)..Start(b) + blockSize];
    }

    /** The logical values of a full block are its stored elements, passed
        through the block's pending update when it is lazy. */
    lemma FullBlockLogical(d: seq<S>, lz: seq<F>, il: seq<bool>, b: nat)
      requires |d| == n && |lz| == |il| == NumBlocks() && b < NumBlocks()
      requires Start(b) + blockSize <= n
      ensures var lo := Start(b);
              Logical(d, lz, il)[lo..lo + blockSize]
              == if il[b] then MapSeq(mappingFunc, lz[b], d[lo..lo + blockSize]) else d[lo..lo + blockSize]
    {
      var lo := Start(b);
      var w := Logical(d, lz, il)[lo..lo + blockSize];
      var blk := d[lo..lo + blockSize];
      if il[b] {
        var t := MapSeq(mappingFunc, lz[b], blk);
        forall k | 0 <= k < blockSize
          ensures w[k] == t[k]
        {
          InBlock(d, lz, il, b, lo + k);
        }
        assert w == t;
      } else {
        forall k | 0 <= k < blockSize
          ensures w[k] == blk[k]
        {
          InBlock(d, lz, il, b, lo + k);
        }
        assert w == blk;
      }
    }

    /** The logical value at an index of block b. */
    lemma InBlock(d: seq<S>, lz: seq<F>, il: seq<bool>, b: nat, i: nat)
      requires |lz| == |il| == NumBlocks() && b < NumBlocks()
      requires Start(b) <= i < Start(b) + blockSize && i < |d|
      ensures LogicalAt(d, lz, il, i) == if il[b] then mappingFunc(lz[b], d[i]) else d[i]
    {
      BlockIdxUnique(i, b);
    }

    /** The contributions of the full blocks [lo, hi), folded onto acc, are acc
        combined with the fold of their logical values. */
    lemma {:induction false} FullBlocks(d: seq<S>, res: seq<S>, lz: seq<F>, il: seq<bool>, acc: S, lo: nat, hi: nat)
      requires n >= 1 && productFunc.Some? && |d| == n && |lz| == |il| == NumBlocks()
      requires IsMonoid(productFunc.value, e())
      requires BlockLaw(blockSize, e, productFunc.value, mappingFunc, mappingBlockFunc)
      requires FoldedExcept(d, res, -1)
      requires lo <= hi && Start(lo) <= Start(hi) <= n
      ensures hi <= NumBlocks()
      ensures BlocksFrom(productFunc.value, acc, res, lz, il, lo, hi)
              == productFunc.value(acc, Fold(productFunc.value, e(), Logical(d, lz, il)[Start(lo)..Start(hi)]))
      decreases hi
    {
      BlocksUpTo(hi);
      if hi == lo {
        assert Fold(productFunc.value, e(), Logical(d, lz, il)[Start(lo)..Start(hi)]) == e();
      } else {
        StartMono(lo, hi - 1);
        StartPrev(hi);
        FullBlocks(d, res, lz, il, acc, lo, hi - 1);
        FullBlocksStep(d, res, lz, il, acc, lo, hi);
      }
    }

    /** One more full block on the right of FullBlocks. */
    lemma FullBlocksStep(d: seq<S>, res: seq<S>, lz: seq<F>, il: seq<bool>, acc: S, lo: nat, hi: nat)
      requires n >= 1 && productFunc.Some? && |d| == n && |lz| == |il| == NumBlocks()
      requires IsMonoid(productFunc.value, e())
      requires BlockLaw(blockSize, e, productFunc.value, mappingFunc, mappingBlockFunc)
      requires FoldedExcept(d, res, -1)
      requires lo < hi <= NumBlocks() && Start(lo) <= Start(hi - 1) && Start(hi) == Start(hi - 1) + blockSize <= n
      requires BlocksFrom(productFunc.value, acc, res, lz, il, lo, hi - 1)
               == productFunc.value(acc, Fold(productFunc.value, e(), Logical(d, lz, il)[Start(lo)..Start(hi - 1)]))
      ensures BlocksFrom(productFunc.value, acc, res, lz, il, lo, hi)
              == productFunc.value(acc, Fold(productFunc.value, e(), Logical(d, lz, il)[Start(lo)..Start(hi)]))
    {
      var op := productFunc.value;
      var v := Logical(d, lz, il);
      var a, m, c := Start(lo), Start(hi - 1), Start(hi);
      FullBlock(d, res, lz, il, hi - 1, c);
      FoldExtend(op, e(), acc, v, a, m, c);
    }
  }
}
