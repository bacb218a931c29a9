# go-cplib core, modelled in Dafny

This project models the data structures and algorithms of the Go library
go-cplib, a toolbox for competitive programming, and proves that each one
does what its abstract meaning says. Every modelled operation is proved
against a specification written in terms of a sequence, a map, a set or a
number.

- **Lazy square-root decomposition** (`SqDecomp`, `sqdecomp.dfy`).
  - `RangeSqrtDecomposition` keeps the `data`, `result`, `lazyApply` and `isLazy` arrays of the Go struct.
  - Its logical content is the ghost sequence `Values()`. Inside a lazy block, each element is the block's pending update mapped over `data`.
  - `Get`, `Set`, `Apply`, `Product` and `ApplyRange` are stated against `Values()`.
  - The invariant `Valid()` says three things:
    - the arrays have their sizes (one entry per block) and do not alias;
    - every non-lazy block carries `id()`;
    - every cache `result[b]` is the fold of its block's `data`.
  - The caller's algebra is a hypothesis, `Lawful`, also kept in `Valid()`. It covers the monoid, the identity update and the block law for `mappingBlockFunc`. It also covers the composition law, in the argument order `compositionFunc(older, newer)` that the code uses when it defers an update.
- **Iterative segment tree** (`SegTree`, `segtree.dfy`).
  - The class keeps the `2n`-element array.
  - The invariant is that every internal node combines its two children.
  - `Product` is the bottom-up two-accumulator loop, proved equal to the left fold of the leaves in `[l, r)`.
- **Dynamic segment tree** (`DynSegTree`, `dynsegtree.dfy`).
  - The pointer tree is a datatype tree held in a class field.
  - `Set`'s swapping descent is the recursive `Insert`, followed by the refold of `subVal` along the path.
  - Proved properties:
    - the range-halving shape;
    - BST order;
    - the `subVal` aggregate;
    - the point-lookup function `Find`;
    - `Product` as the fold of the stored values in index order.
- **Treap ordered map and set** (`TreapTree` in `treap_tree.dfy`, `TreapMap` in `treap.dfy`).
  - The tree is a datatype; a search path is a zipper (a sequence of frames).
  - `rotate` becomes `Lift` (one step up) and `Sink` (one step down).
  - The map is the in-order entry sequence, which is strictly sorted by key.
  - Heap order on priorities is part of the invariant.
  - The set wrapper is a class over a `Treap<()>`, the unit type standing for Go's `struct{}` values, specified by the set of its keys.
- **Permutations** (`Permutation`, `permutation.dfy`).
  - `doPermutation` works in place on an array.
  - When it succeeds, the new array is the lexicographic successor of the old one (under the reversed order for `Prev`). When it fails, there was none: the old array was the last arrangement of its elements.
- **Integers** (`Ints`, `ints.dfy`).
  - `ExtGcd` follows Go's truncating `/` and `%`. It satisfies Bézout's identity and computes the gcd.
  - `PowMod` is the square-and-multiply loop, proved congruent to `a^n`.
- **Run-length encoding** (`Rle`, `rle.dfy`). The runs expand back to the input. They are the only canonical encoding of it: every count is at least 1 and neighbouring values differ.
- **main.go helpers** (`Helpers`, `helpers.dfy`): `max`, `min`, `chMax`, `chMin`, `abs`, `pow`, `sum`, `fillSlice` and `countSlice`.

`Algebra` (`algebra.dfy`) holds what the modules share:
- monoid laws and left folds with their splitting lemmas;
- Go's truncating quotient and remainder (`GoQuo`, `GoRem`);
- `Abs` and `Power`.

## Model

| member | source | states |
|---|---|---|
| SqDecomp.RoundSqrt | algorithm/sqdecomp/rangesqrtdecomposition.go:57 | the block size is the integer nearest to the square root of n: k*k-k < n <= k*k+k, and at least 1 for n >= 1 |
| SqDecomp.RangeSqrtDecomposition.With | algorithm/sqdecomp/rangesqrtdecomposition.go:46-92 | fresh arrays with data a copy of the input and ceil(n/B) blocks, every block non-lazy with id() and result e(); the cache invariant holds exactly when every block of the seed folds to e() |
| SqDecomp.RangeSqrtDecomposition.New | algorithm/sqdecomp/rangesqrtdecomposition.go:30-44 | on the all-e() data the full invariant holds and the logical values are n copies of e() |
| SqDecomp.RangeSqrtDecomposition.NeutralBlocks | algorithm/sqdecomp/rangesqrtdecomposition.go:39-43 | a block of e() elements folds to e(), so the e() caches of New are correct |
| SqDecomp.RangeSqrtDecomposition.Len | algorithm/sqdecomp/rangesqrtdecomposition.go:94-96 | Len is the number of logical values |
| SqDecomp.RangeSqrtDecomposition.CalcResult | algorithm/sqdecomp/rangesqrtdecomposition.go:204-214 | refolding block b re-establishes the cache invariant broken only at b, without touching the logical values |
| SqDecomp.RangeSqrtDecomposition.EvalLazy | algorithm/sqdecomp/rangesqrtdecomposition.go:189-202 | pushing block b's pending update into data leaves b non-lazy, keeps the invariant and changes no logical value |
| SqDecomp.RangeSqrtDecomposition.EvalLemma | algorithm/sqdecomp/rangesqrtdecomposition.go:193-200 | mapping a lazy block's update over its data and resetting it to id() gives the same logical values |
| SqDecomp.RangeSqrtDecomposition.Get | algorithm/sqdecomp/rangesqrtdecomposition.go:98-101 | returns the logical value at i and leaves all logical values unchanged |
| SqDecomp.RangeSqrtDecomposition.Set | algorithm/sqdecomp/rangesqrtdecomposition.go:103-108 | the logical values become the old ones with position i replaced by x |
| SqDecomp.RangeSqrtDecomposition.PointLemma | algorithm/sqdecomp/rangesqrtdecomposition.go:106 | writing data[i] in a non-lazy block writes logical value i and no other |
| SqDecomp.RangeSqrtDecomposition.Apply | algorithm/sqdecomp/rangesqrtdecomposition.go:145-150 | the logical value at i becomes mapping(f, old) and every other one is unchanged |
| SqDecomp.RangeSqrtDecomposition.Product | algorithm/sqdecomp/rangesqrtdecomposition.go:110-143 | the left-to-right fold of the logical values in [l, r), e() when l == r; logical values unchanged |
| SqDecomp.RangeSqrtDecomposition.ProductSpan | algorithm/sqdecomp/rangesqrtdecomposition.go:121-142 | when l and r-1 lie in different blocks, left partial block, full blocks and right partial block together fold [l, r) |
| SqDecomp.RangeSqrtDecomposition.FoldFullBlocks | algorithm/sqdecomp/rangesqrtdecomposition.go:129-135 | the full-block loop, using mappingBlockFunc on the cache of a lazy block, folds the logical values of those blocks |
| SqDecomp.RangeSqrtDecomposition.FullBlocks | algorithm/sqdecomp/rangesqrtdecomposition.go:129-135 | the cache fold of blocks lo..hi equals the fold of the logical values they cover |
| SqDecomp.RangeSqrtDecomposition.FullBlock | algorithm/sqdecomp/rangesqrtdecomposition.go:130-134 | one full block contributes the fold of its logical values, through the block law when lazy |
| SqDecomp.RangeSqrtDecomposition.EvalAndFold | algorithm/sqdecomp/rangesqrtdecomposition.go:114-117 | evaluates a block and folds part of it: the fold of the old logical values of that part |
| SqDecomp.RangeSqrtDecomposition.FoldData | algorithm/sqdecomp/rangesqrtdecomposition.go:115-117 | the element loop folds data[lo..hi) onto the accumulator |
| SqDecomp.RangeSqrtDecomposition.ApplyRange | algorithm/sqdecomp/rangesqrtdecomposition.go:152-183 | the logical values become MapRange(old, l, r, f): f mapped over [l, r), everything else unchanged; the invariant holds after |
| SqDecomp.RangeSqrtDecomposition.MapInBlock | algorithm/sqdecomp/rangesqrtdecomposition.go:155-159 | mapping f over part of an evaluated block and refolding it maps f over exactly those logical values |
| SqDecomp.RangeSqrtDecomposition.DeferBlocks | algorithm/sqdecomp/rangesqrtdecomposition.go:172-175 | composing f into the pending update of every full block maps f over their logical values; caches stay correct untouched |
| SqDecomp.RangeSqrtDecomposition.DeferLemma | algorithm/sqdecomp/rangesqrtdecomposition.go:173-174 | lazyApply[b] := compositionFunc(lazyApply[b], f) with isLazy[b] := true maps f over block b, by the composition law in that order |
| SqDecomp.RangeSqrtDecomposition.MapRangeConcat | algorithm/sqdecomp/rangesqrtdecomposition.go:165-182 | mapping f over [a, b) and then [b, c) is mapping it over [a, c) |
| SqDecomp.RangeSqrtDecomposition.Split | algorithm/sqdecomp/rangesqrtdecomposition.go:121-123 | when l and r-1 are in different blocks, lCeil*B and rFloor*B lie within [l, r) and the partial pieces stay inside their blocks |
| SqDecomp.RangeSqrtDecomposition.SameBlock | algorithm/sqdecomp/rangesqrtdecomposition.go:111-113 | when nowBlock(l) == nowBlock(r-1) under Go division, [l, r) lies inside that one block, including l == r == 0 |
| SqDecomp.RangeSqrtDecomposition.NumBlocksDiv | algorithm/sqdecomp/rangesqrtdecomposition.go:64 | (n+B-1)/B is the number of blocks that cover n elements |
| SqDecomp.RangeSqrtDecomposition.LogicalIdle | algorithm/sqdecomp/rangesqrtdecomposition.go:81 | with no block lazy the logical values are data itself |
| SegTree.SegmentTree.New | data-structure/segtree/segtree.go:11-26 | every leaf is e() and every internal node combines its children |
| SegTree.SegmentTree.With | data-structure/segtree/segtree.go:28-44 | the leaves are s and every internal node combines its children |
| SegTree.SegmentTree.Build | data-structure/segtree/segtree.go:22-24 | the bottom-up update loop establishes the internal-node invariant without changing the leaves |
| SegTree.SegmentTree.Update | data-structure/segtree/segtree.go:98-101 | node now becomes op of its two children; nothing else changes |
| SegTree.SegmentTree.Len | data-structure/segtree/segtree.go:58-60 | Len is the number of leaves |
| SegTree.SegmentTree.Set | data-structure/segtree/segtree.go:62-69 | leaf i becomes val, every other leaf is unchanged, the internal-node invariant still holds |
| SegTree.UpdateStep | data-structure/segtree/segtree.go:65-68 | one climb step moves the single broken node to the parent |
| SegTree.SegmentTree.Get | data-structure/segtree/segtree.go:71-73 | returns leaf i |
| SegTree.SegmentTree.Product | data-structure/segtree/segtree.go:75-92 | the left fold of the leaves in [l, r), e() when l >= r, given associativity and neutrality |
| SegTree.NodeFold | data-structure/segtree/segtree.go:98-101 | under the invariant a node holds the fold of the leaves below it |
| SegTree.SegmentTree.Level | data-structure/segtree/segtree.go:79-90 | one loop iteration keeps valL, the uncovered nodes and valR folding to the whole range, and shrinks r - l |
| SegTree.SegmentTree.ProductAll | data-structure/segtree/segtree.go:94-96 | the fold of all leaves |
| DynSegTree.DynamicSegmentTree.constructor | data-structure/segtree/dynamicsegtree.go:16-24 | an empty tree on [l, r): no index holds a value |
| DynSegTree.DynamicSegmentTree.With | data-structure/segtree/dynamicsegtree.go:26-32 | on [0, len(s)) index j holds s[j] and the invariants hold |
| DynSegTree.DynamicSegmentTree.Leaf | data-structure/segtree/dynamicsegtree.go:152-158 | a fresh node has no children, holds (i, val), and meets the aggregate invariant (subVal is the product e()·val·e()) whenever e() is neutral for op |
| DynSegTree.DynamicSegmentTree.Refold | data-structure/segtree/dynamicsegtree.go:122-132 | update: the refolded node meets the aggregate invariant (subVal is the product of its left subtree, its value and its right subtree, nil counting as e()) exactly when both children meet it |
| DynSegTree.DynamicSegmentTree.Insert | data-structure/segtree/dynamicsegtree.go:43-74 | the swapping descent keeps every node of a range-[lo, hi) subtree inside it, halving at the midpoint, and adds exactly index i |
| DynSegTree.DynamicSegmentTree.InsertOrdered | data-structure/segtree/dynamicsegtree.go:48-62 | the swaps keep left indices < node index < right indices |
| DynSegTree.DynamicSegmentTree.InsertAgg | data-structure/segtree/dynamicsegtree.go:76-78 | refolding the changed path restores the subVal invariant at every node |
| DynSegTree.DynamicSegmentTree.InsertFind | data-structure/segtree/dynamicsegtree.go:34-79 | after the insertion index i holds val and every other index keeps its value |
| DynSegTree.HalvingKeys | data-structure/segtree/dynamicsegtree.go:43-62 | every index of a subtree reached under range [lo, hi) lies in [lo, hi) |
| DynSegTree.FindKeys | data-structure/segtree/dynamicsegtree.go:83-91 | the descending lookup finds an index exactly when it is stored in the tree |
| DynSegTree.DynamicSegmentTree.Set | data-structure/segtree/dynamicsegtree.go:34-79 | succeeds exactly when l <= i < r; then index i holds val and all other indices are unchanged; the tree is untouched otherwise |
| DynSegTree.DynamicSegmentTree.Get | data-structure/segtree/dynamicsegtree.go:81-93 | out of range exactly when i < l or r <= i; otherwise the stored value, or e() for an index never set |
| DynSegTree.DynamicSegmentTree.Product | data-structure/segtree/dynamicsegtree.go:95-101 | out of range exactly when argL < l or r < argR; otherwise the fold in index order of the values stored in [argL, argR) |
| DynSegTree.DynamicSegmentTree.ProductRecFold | data-structure/segtree/dynamicsegtree.go:103-116 | the recursive product equals the fold of the stored values in [argL, argR) |
| DynSegTree.DynamicSegmentTree.SubValFold | data-structure/segtree/dynamicsegtree.go:107-109 | a subtree's subVal is the fold of all values stored in it |
| DynSegTree.DynamicSegmentTree.ProductAll | data-structure/segtree/dynamicsegtree.go:118-120 | for a non-empty tree, the fold of all stored values in index order |
| TreapTree.Lift | data-structure/treap/treap.go:166-192 | rotating a child above its parent keeps the child's entry and the in-order sequence of the two |
| TreapTree.Sink | data-structure/treap/treap.go:166-192 | rotating a child above a node pushes the node one level down, keeping the in-order sequence |
| TreapTree.LiftInOrder | data-structure/treap/treap.go:166-192 | a rotation up keeps the in-order sequence of the whole tree |
| TreapTree.SinkInOrder | data-structure/treap/treap.go:166-192 | a rotation down keeps the in-order sequence of the whole tree |
| TreapTree.LiftHeap | data-structure/treap/treap.go:256-259 | lifting a node whose priority exceeds its parent's keeps heap order everywhere else |
| TreapTree.SinkHeap | data-structure/treap/treap.go:277-290 | sinking toward the higher-priority child keeps heap order around the moving node |
| TreapTree.HeapPlug | data-structure/treap/treap.go:133 | heap order along a path and in the subtree under it gives heap order for the whole tree |
| TreapTree.LookupMeaning | data-structure/treap/treap.go:265-270 | in a sorted entry sequence a lookup finds exactly the entry with that key |
| TreapTree.FindSplit | data-structure/treap/treap.go:148-164 | the search path splits the in-order sequence into keys below k, the subtree reached and keys above k |
| TreapMap.Treap.constructor | data-structure/treap/treap.go:101-110 | an empty map |
| TreapMap.Treap.Len | data-structure/treap/treap.go:234-236 | Len is the number of entries |
| TreapMap.Treap.Find | data-structure/treap/treap.go:148-164 | the descent returns a search path for k that plugs back into the tree, ending at k's node or at nil |
| TreapMap.Treap.Prev | data-structure/treap/treap.go:194-212 | the in-order predecessor of the node: the last entry before it |
| TreapMap.Treap.Next | data-structure/treap/treap.go:214-232 | the in-order successor of the node: the first entry after it |
| TreapMap.Treap.Set | data-structure/treap/treap.go:238-263 | k maps to v and every other key is unchanged; Len grows by one exactly when k was absent; BST and heap order hold after |
| TreapMap.BubbleUp | data-structure/treap/treap.go:256-262 | the rotation loop keeps the in-order sequence and ends in a heap |
| TreapMap.InsertAt | data-structure/treap/treap.go:249-255 | linking a new leaf where the search ended adds k with v and nothing else, keeping the order |
| TreapMap.ReplaceAt | data-structure/treap/treap.go:244-247 | overwriting the value at k's node changes only k's value |
| TreapMap.Treap.Get | data-structure/treap/treap.go:265-270 | the value stored under k, or none when k is absent |
| TreapMap.Treap.Delete | data-structure/treap/treap.go:272-303 | k is absent afterwards and every other key unchanged; Len drops by one exactly when k was present |
| TreapMap.SinkDown | data-structure/treap/treap.go:277-290 | rotating toward the higher-priority child moves the node to a leaf, keeps the in-order sequence and leaves a heap once that leaf is removed |
| TreapMap.RemoveAt | data-structure/treap/treap.go:291-302 | unlinking the leaf removes exactly its key |
| TreapMap.Treap.Min | data-structure/treap/treap.go:305-314 | none on an empty map, otherwise the entry with the smallest key |
| TreapMap.Treap.Max | data-structure/treap/treap.go:316-325 | none on an empty map, otherwise the entry with the largest key |
| TreapMap.Treap.SearchLeft | data-structure/treap/treap.go:329-345 | the entry with the greatest key <= k (eq) or < k (not eq), none when there is none |
| TreapMap.Treap.SearchRight | data-structure/treap/treap.go:349-365 | the entry with the least key >= k (eq) or > k (not eq), none when there is none |
| TreapMap.LeftFound | data-structure/treap/treap.go:331-336 | on a hit, SearchLeft's answer is the node itself or its predecessor |
| TreapMap.RightFound | data-structure/treap/treap.go:351-356 | on a hit, SearchRight's answer is the node itself or its successor |
| TreapMap.KeySetSize | data-structure/treap/treap.go:122 | a sorted entry sequence has no duplicate keys: as many keys as entries |
| TreapMap.TreapSet.constructor | data-structure/treap/treap.go:25-34 | an empty set |
| TreapMap.TreapSet.Len | data-structure/treap/treap.go:44-46 | the number of members |
| TreapMap.TreapSet.Set | data-structure/treap/treap.go:48-50 | the members gain k |
| TreapMap.TreapSet.Get | data-structure/treap/treap.go:52-55 | true exactly when k is a member |
| TreapMap.TreapSet.Delete | data-structure/treap/treap.go:57-59 | the members lose k |
| TreapMap.TreapSet.Min | data-structure/treap/treap.go:61-64 | none on an empty set, otherwise the least member |
| TreapMap.TreapSet.Max | data-structure/treap/treap.go:66-69 | none on an empty set, otherwise the greatest member |
| TreapMap.TreapSet.SearchLeft | data-structure/treap/treap.go:73-76 | the greatest member <= k (eq) or < k, none exactly when no member qualifies |
| TreapMap.TreapSet.SearchRight | data-structure/treap/treap.go:80-83 | the least member >= k (eq) or > k, none exactly when no member qualifies |
| Permutation.NewPermutation | algorithm/permutation/permutation.go:12-18 | a fresh array holding 0, 1, ..., n-1 |
| Permutation.NewPermutationInitialized | algorithm/permutation/permutation.go:20-23 | the same slice, now sorted ascending and a permutation of its old contents |
| Permutation.FindAscent | algorithm/permutation/permutation.go:34-41 | the last i with cmp(p[i], p[i+1]), or -1 when there is none |
| Permutation.LastAscentBelow | algorithm/permutation/permutation.go:36-41 | the index found is an ascent and no later index below the bound is one |
| Permutation.AscentFound | algorithm/permutation/permutation.go:42-44 | the search gives -1 exactly when the sequence has no ascent |
| Permutation.ReverseRange | algorithm/permutation/permutation.go:46-50 | the two-index loop reverses p[lo..hi) in place and touches nothing else |
| Permutation.SwapFirstAbove | algorithm/permutation/permutation.go:51-56 | swaps p[idx] with the first later element above it |
| Permutation.StepShape | algorithm/permutation/permutation.go:46-56 | after the reversal and the swap: prefix unchanged, p[idx] replaced by the least later element above it, suffix in order, same multiset |
| Permutation.DoPermutation | algorithm/permutation/permutation.go:33-58 | true exactly when the array has an ascent; when false the array is unchanged; when true it has the successor shape at the last ascent |
| Permutation.Successor | algorithm/permutation/permutation.go:33-58 | the successor shape is the lexicographically next arrangement: greater than p and below every other greater arrangement |
| Permutation.NoSuccessor | algorithm/permutation/permutation.go:42-44 | with no ascent, no arrangement of the same elements is lexicographically greater |
| Permutation.FirstArrangement | algorithm/permutation/permutation.go:20-23 | an arrangement in order is lexicographically least among arrangements of its elements |
| Permutation.LastArrangement | algorithm/permutation/permutation.go:42-44 | an arrangement in reverse order is lexicographically greatest |
| Permutation.Next | algorithm/permutation/permutation.go:25-27 | doPermutation under <: true exactly when some p[i] < p[i+1]; false leaves p unchanged; true leaves the successor shape that Successor proves is the next greater arrangement |
| Permutation.Prev | algorithm/permutation/permutation.go:29-31 | doPermutation under >: true exactly when some p[i] > p[i+1]; false leaves p unchanged; true leaves the successor shape under >, the next smaller arrangement |
| Ints.ExtGcd | math/ints/ints.go:3-9 | Bézout: a*x + b*y == d, with ExtGcd(a, 0) == (a, 1, 0) and d >= 0 on non-negative arguments |
| Ints.ExtGcdDivides | math/ints/ints.go:3-9 | on non-negative arguments d divides a and b |
| Ints.ExtGcdGreatest | math/ints/ints.go:3-9 | every common divisor of a and b divides d, so d is their gcd |
| Ints.PowMod | math/ints/ints.go:11-23 | the result is congruent to a^n modulo m and below m in magnitude; it is a^n % m for a >= 0, n >= 0, m >= 1; 1 % m when n <= 0 |
| Ints.PowModStep | math/ints/ints.go:14-20 | one iteration keeps res * b^n congruent to the original a^n |
| Rle.RunLengthEncoding | algorithm/rle/rle.go:3-18 | the runs expand back to s, every count is at least 1 and neighbouring runs have different values |
| Rle.ExtendLast | algorithm/rle/rle.go:8-9 | counting one more copy in the last run appends its value to the expansion and keeps the runs canonical |
| Rle.AppendRun | algorithm/rle/rle.go:10-15 | a new run {v, 1} after a run of a different value appends v to the expansion and keeps the runs canonical |
| Rle.ExpandLength | algorithm/rle/rle.go:7-16 | the counts sum to the length of the expansion, which is at least the number of runs |
| Rle.EncodingUnique | algorithm/rle/rle.go:8-15 | canonical run lists with the same expansion are equal: the encoding is the only canonical one |
| Helpers.Max | main.go:108-116 | an element of the arguments that is >= every argument |
| Helpers.Min | main.go:117-125 | an element of the arguments that is <= every argument |
| Helpers.ChMax | main.go:126-128 | the variable becomes the larger of its value and b |
| Helpers.ChMin | main.go:129-131 | the variable becomes the smaller of its value and b |
| Algebra.Abs | main.go:132-137 | a or -a, and non-negative |
| Helpers.Pow | main.go:138-149 | a^n for n >= 0 and 1 for n < 0 |
| Helpers.Sum | main.go:150-156 | the arithmetic sum of the arguments |
| Helpers.TotalAppend | main.go:150-156 | the sum of a concatenation is the sum of the sums |
| Helpers.FillSlice | main.go:159-163 | every element becomes v |
| Helpers.CountSlice | main.go:164-172 | the number of positions holding v |
| Algebra.GoDivision | math/ints/ints.go:7-8 | Go's truncating quotient and remainder: a == b*q + r with \|r\| < \|b\|, r >= 0 for a >= 0 |

## Left out

- I/O is not modelled: the `myio` package and the `Solve`/`main`/`input` plumbing of main.go.
- The test files are not modelled.
- The priority queue is not modelled. It wraps `container/heap`, whose code is not part of this model.
- Caller-supplied functions (`e`, `op`, `productFunc`, `mappingFunc`, `compositionFunc`, comparators) are modelled as pure Dafny functions. Their algebraic laws are hypotheses in the requires clauses; the Go code never checks them.
- Go `int` is 64 bits. Its overflow is not modelled anywhere: all integers are unbounded. This matters for `abs` at the most negative int, and for large values in `pow`, `sum`, `PowMod` and `ExtGcd` coefficients.
- SqDecomp.RoundSqrt: the block size `int(math.Round(math.Sqrt(float64(n))))` is computed in floating point. The model uses the exact nearest-integer square root, which differs from the float result only where the float rounding itself is off.
- SqDecomp.RangeSqrtDecomposition.With: the Go constructor fills every cache with `e()` without folding seeded data. The model does the same. It only establishes `Valid()` when every such cache happens to be correct, e.g. on the all-`e()` data of `New`. Every other operation requires `Valid()`.
- SqDecomp.RangeSqrtDecomposition.Product: requires `0 <= l <= r <= n`.
  - For an inverted range, the Go code folds unrelated elements when l and r-1 fall in different blocks.
  - For any range outside `[0, n]`, it indexes out of bounds.
- SqDecomp.RangeSqrtDecomposition.ApplyRange: requires `0 <= l <= r <= n`, for the same reasons as Product.
- SqDecomp.RangeSqrtDecomposition.Product: requires `productFunc` to be present. Go dereferences the nil function otherwise.
- SqDecomp.RangeSqrtDecomposition.Get: requires `0 <= i < n`. Go panics on `data[i]` outside that range; for `-B < i < 0` it first evaluates block 0 and then panics.
- SqDecomp.RangeSqrtDecomposition.Set: requires `0 <= i < n`, where Go panics in the same way as Get.
- SqDecomp.RangeSqrtDecomposition.Apply: requires `0 <= i < n`, where Go panics in the same way as Get.
- SqDecomp.RangeSqrtDecomposition.With: requires a non-empty array, because Go divides by the block size 0 when the input is empty.
- SqDecomp.RangeSqrtDecomposition.New: requires `n >= 1`, because Go divides by the block size 0 when n is 0.
- SegTree.SegmentTree.Set: requires `0 <= i < n`. Go accepts `-n <= i < 0`, which overwrites an internal node and then recomputes the path above it.
- SegTree.SegmentTree.Get: requires `0 <= i < n`. Go's `-n <= i < 0` reads an internal node.
- SegTree.SegmentTree.New: takes a natural number, because Go panics on a negative size at `make([]T, n*2)`.
- SegTree.SegmentTree.Product: requires both ends in `[0, n]`.
  - Ends below 0 make Go read internal nodes.
  - An end above n makes Go panic or return a value that is not the fold of any leaf range: for n = 4, `Product(0, 5)` reads `data[8]` and panics, while `Product(0, 6)` returns `op(data[1], data[4])`.
  - An inverted range is covered and yields `e()`.
- DynSegTree.DynamicSegmentTree.Set: Go's pointer-walking loop is modelled as the recursive function `Insert` on a value tree, followed by the parent-chain refold. Parent pointers are not modelled.
- DynSegTree.DynamicSegmentTree.Set, Get and Product return an out-of-range outcome where Go panics.
- DynSegTree.DynamicSegmentTree.ProductAll: requires a non-empty tree, because Go dereferences the nil root.
- TreapMap.Treap: the tree is a value with a zipper for the search path. Parent pointers, in-place link rewriting and aliasing between nodes are not modelled. The new root is stored in the object's field at the end of `Set` and `Delete`.
- TreapMap.Treap.Set and TreapMap.TreapSet.Set: the random priority (a time-seeded generator in Go) is an argument.
- TreapMap.Treap: keys are `int` under `<`. `NewOrderedMapFunc` and `NewSetFunc` with a custom comparator are not modelled.
- TreapMap.Treap.Get: the zero value `*new(V)` of a missed lookup is the `None` of an option. Min, Max, SearchLeft and SearchRight do the same.
- Permutation.NewPermutationInitialized: `slices.Sort` belongs to the Go library and is not part of this model. An insertion sort stands in for it, and only the sorted result and the permutation property are claimed.
- Permutation: elements are `int` rather than any `cmp.Ordered` type.
- Permutation.NewPermutation: takes a natural number, because Go panics on a negative length.
- Ints.PowMod: requires `m != 0`, because Go panics on a zero modulus.
- Helpers.Max: requires at least one argument, because Go panics on `as[0]` of an empty argument list.
- Helpers.Min: requires at least one argument, because Go panics on `as[0]` of an empty argument list.
- Helpers.ChMax: the `*int` argument is an `IntVar` object. ChMin is modelled the same way.
