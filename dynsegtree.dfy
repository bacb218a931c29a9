/** Dynamic segment tree (data-structure/segtree/dynamicsegtree.go): a tree
    over an index range [l, r) that holds a node only for the indices that
    were set. Each node stores one index, its value and the product of its
    subtree. The Go nodes are linked by pointers; here the tree is a value. */
module DynSegTree {
  import opened Algebra

  /** A nil pointer or a node: index i, value val, subtree product subVal. */
  datatype Node<T> = Nil | Node(left: Node<T>, i: int, val: T, subVal: T, right: Node<T>)

  /** The outcome of an operation guarded by checkInRange / checkInRangeLR:
      the value, or the panic for an index outside the tree's range. */
  datatype Outcome<R> = Ok(value: R) | OutOfRange

  /** The index set of a tree. */
  ghost function Keys<T>(t: Node<T>): set<int> {
    match t
    case Nil => {}
    case Node(left, i, _, _, right) => Keys(left) + {i} + Keys(right)
  }

  /** Search-tree order: left indices are smaller than the node's, right ones larger. */
  ghost predicate Ordered<T>(t: Node<T>) {
    match t
    case Nil => true
    case Node(left, i, _, _, right) =>
      && Ordered(left) && Ordered(right)
      && (forall k :: k in Keys(left) ==> k < i)
      && (forall k :: k in Keys(right) ==> i < k)
  }

  /** `(l + r) / 2` on Go ints. */
  function Mid(lo: int, hi: int): int {
    GoQuo(lo + hi, 2)
  }

  /** A range of at least two indices has its midpoint strictly inside. */
  lemma MidInside(lo: int, hi: int)
    requires hi - lo >= 2
    ensures lo < Mid(lo, hi) < hi
  {
    GoDivision(lo + hi, 2);
    var q, s := GoQuo(lo + hi, 2), GoRem(lo + hi, 2);
    assert lo + hi == 2 * q + s && -2 < s < 2;
  }

  /** The range-halving shape Set's descent builds: a node reached under
      [lo, hi) has its index in [lo, hi), its left child under [lo, m) and its
      right child under [m, hi), for m the midpoint. */
  ghost predicate Halving<T>(t: Node<T>, lo: int, hi: int) {
    match t
    case Nil => true
    case Node(left, i, _, _, right) =>
      lo <= i < hi && Halving(left, lo, Mid(lo, hi)) && Halving(right, Mid(lo, hi), hi)
  }

  lemma {:induction false} HalvingKeys<T>(t: Node<T>, lo: int, hi: int)
    requires Halving(t, lo, hi)
    ensures forall k :: k in Keys(t) ==> lo <= k < hi
  {
    if t.Node? {
      HalvingKeys(t.left, lo, Mid(lo, hi));
      HalvingKeys(t.right, Mid(lo, hi), hi);
    }
  }

  /** The search Get performs: the value stored at index j, if any. */
  ghost function Find<T>(t: Node<T>, j: int): Option<T> {
    match t
    case Nil => None
    case Node(left, i, val, _, right) =>
      if j == i then Some(val) else if j < i then Find(left, j) else Find(right, j)
  }

  /** In a search tree exactly the indices of its nodes are found. */
  lemma {:induction false} FindKeys<T>(t: Node<T>, j: int)
    requires Ordered(t)
    ensures Find(t, j).Some? <==> j in Keys(t)
  {
    if t.Node? {
      FindKeys(t.left, j);
      FindKeys(t.right, j);
    }
  }

  /** The values stored at the indices of [a, b), in increasing index order. */
  ghost function Stored<T>(t: Node<T>, a: int, b: int): seq<T>
    decreases b - a
  {
    if b <= a then []
    else Stored(t, a, b - 1) + (if Find(t, b - 1).Some? then [Find(t, b - 1).value] else [])
  }

  lemma {:induction false} StoredSplit<T>(t: Node<T>, a: int, m: int, b: int)
    requires a <= m <= b
    ensures Stored(t, a, b) == Stored(t, a, m) + Stored(t, m, b)
    decreases b - m
  {
    if m < b {
      StoredSplit(t, a, m, b - 1);
    }
  }

  /** Stored only depends on what the search finds in the window. */
  lemma {:induction false} StoredSame<T>(t: Node<T>, u: Node<T>, a: int, b: int)
    requires forall j :: a <= j < b ==> Find(t, j) == Find(u, j)
    ensures Stored(t, a, b) == Stored(u, a, b)
    decreases b - a
  {
    if a < b {
      StoredSame(t, u, a, b - 1);
    }
  }

  /** A window holding none of a search tree's indices stores nothing. */
  lemma StoredOutside<T>(t: Node<T>, a: int, b: int)
    requires Ordered(t)
    requires forall k :: k in Keys(t) ==> !(a <= k < b)
    ensures Stored(t, a, b) == []
  {
    forall j | a <= j < b
      ensures Find(t, j) == Find(Nil, j)
    {
      FindKeys(t, j);
    }
    StoredSame(t, Nil, a, b);
    StoredNil<T>(a, b);
  }

  lemma {:induction false} StoredNil<T>(a: int, b: int)
    ensures Stored<T>(Nil, a, b) == []
    decreases b - a
  {
    if a < b {
      StoredNil<T>(a, b - 1);
    }
  }

  /** A node's window is its left subtree's, then its own value when its
      index is inside the window, then its right subtree's. */
  lemma NodeStored<T>(t: Node<T>, a: int, b: int)
    requires t.Node? && Ordered(t)
    ensures Stored(t, a, b)
            == Stored(t.left, a, b) + (if a <= t.i < b then [t.val] else []) + Stored(t.right, a, b)
  {
    if b <= a {
      return;
    }
    var i := t.i;
    var c1 := if i < a then a else if i > b then b else i;
    var c2 := if i + 1 < a then a else if i + 1 > b then b else i + 1;
    StoredSplit(t, a, c1, b);
    StoredSplit(t, c1, c2, b);
    StoredSplit(t.left, a, c1, b);
    StoredSplit(t.right, a, c2, b);
    forall j | a <= j < c1
      ensures Find(t, j) == Find(t.left, j)
    {
    }
    StoredSame(t, t.left, a, c1);
    forall j | c2 <= j < b
      ensures Find(t, j) == Find(t.right, j)
    {
    }
    StoredSame(t, t.right, c2, b);
    StoredOutside(t.left, c1, b);
    StoredOutside(t.right, a, c2);
    if a <= i < b {
      assert Stored(t, c1, c2) == Stored(t, i, i) + [t.val];
    } else {
      assert c1 == c2;
    }
  }

  class DynamicSegmentTree<T(!new)> {
    const l: int
    const r: int
    var root: Node<T>
    const e: () -> T
    const op: (T, T) -> T

    /** subtreeVal: a nil child contributes e(). */
    function SubtreeVal(t: Node<T>): T {
      if t.Node? then t.subVal else e()
    }

    /** A node whose subVal has been refolded by `update`: it satisfies the
        aggregate invariant exactly when both children do. */
    function Refold(left: Node<T>, i: int, val: T, right: Node<T>): (u: Node<T>)
      ensures u.Node? && u.left == left && u.i == i && u.val == val && u.right == right
      ensures Agg(u) <==> Agg(left) && Agg(right)
    {
      Node(left, i, val, op(op(SubtreeVal(left), val), SubtreeVal(right)), right)
    }

    /** Every subVal is the product of its left subtree, its value and its
        right subtree, left to right. */
    ghost predicate Agg(t: Node<T>) {
      match t
      case Nil => true
      case Node(left, i, val, subVal, right) =>
        subVal == op(op(SubtreeVal(left), val), SubtreeVal(right)) && Agg(left) && Agg(right)
    }

    ghost predicate Valid()
      reads this
    {
      Halving(root, l, r) && Ordered(root) && Agg(root)
    }

    /** The values of the tree in increasing index order: the subject of Product. */
    ghost function Contents(): seq<T>
      reads this
    {
      Stored(root, l, r)
    }

    /** NewDynamicSegmentTree: an empty tree over [l, r). */
    constructor (l: int, r: int, e: () -> T, op: (T, T) -> T)
      ensures this.l == l && this.r == r && this.e == e && this.op == op
      ensures root == Nil && Valid()
      ensures forall j :: Find(root, j) == None
    {
      this.l := l;
      this.r := r;
      root := Nil;
      this.e := e;
      this.op := op;
    }

    /** NewDynamicSegmentTreeWith: the range [0, |s|), then Set(i, s[i]) for
        every i in order. */
    constructor With(s: seq<T>, e: () -> T, op: (T, T) -> T)
      requires IsMonoid(op, e())
      ensures l == 0 && r == |s| && this.e == e && this.op == op && Valid()
      ensures forall j :: Find(root, j) == if 0 <= j < |s| then Some(s[j]) else None
    {
      l := 0;
      r := |s|;
      root := Nil;
      this.e := e;
      this.op := op;
      new;
      for i := 0 to |s|
        invariant Valid()
        invariant forall j :: Find(root, j) == if 0 <= j < i then Some(s[j]) else None
      {
        var ok := Set(i, s[i]);
      }
    }

    /** checkInRange: Set and Get accept exactly the indices of [l, r). */
    predicate InRange(i: int) {
      l <= i < r
    }

    /** newNode: a childless node whose subVal is its value, which meets the
        aggregate invariant when e() is neutral for op. */
    function Leaf(i: int, val: T): (u: Node<T>)
      ensures u.Node? && u.i == i && u.val == val && u.left == Nil && u.right == Nil
      ensures IsMonoid(op, e()) ==> Agg(u)
    {
      Node(Nil, i, val, val, Nil)
    }

    /** Set's descent and refold. At a node reached under [lo, hi) the carried
        pair replaces the node's value when the indices agree; otherwise it
        goes to the half of [lo, hi) holding the carried index, first swapping
        with the node's pair when that keeps the smaller index on the left.
        A nil child becomes a leaf for the carried pair, and every node on the
        way back up is refolded. */
    function Insert(t: Node<T>, lo: int, hi: int, i: int, val: T): (u: Node<T>)
      requires lo <= i < hi && Halving(t, lo, hi)
      ensures u.Node? && Halving(u, lo, hi) && Keys(u) == Keys(t) + {i}
      decreases hi - lo
    {
      match t
      case Nil => Leaf(i, val)
      case Node(left, k, v, _, right) =>
        if i == k then Refold(left, k, val, right)
        else
          MidInside(lo, hi);
          var m := Mid(lo, hi);
          if i < m then
            var ci, cv, ni, nv := if i > k then k else i, if i > k then v else val,
                                  if i > k then i else k, if i > k then val else v;
            Refold(Insert(left, lo, m, ci, cv), ni, nv, right)
          else
            var ci, cv, ni, nv := if i < k then k else i, if i < k then v else val,
                                  if i < k then i else k, if i < k then val else v;
            Refold(left, ni, nv, Insert(right, m, hi, ci, cv))
    }

    /** Set keeps the search order. */
    lemma {:induction false} InsertOrdered(t: Node<T>, lo: int, hi: int, i: int, val: T)
      requires lo <= i < hi && Halving(t, lo, hi) && Ordered(t)
      ensures Ordered(Insert(t, lo, hi, i, val))
      decreases hi - lo
    {
      if t.Node? && i != t.i {
        MidInside(lo, hi);
        var m := Mid(lo, hi);
        if i < m {
          InsertOrdered(t.left, lo, m, if i > t.i then t.i else i, if i > t.i then t.val else val);
          HalvingKeys(t.right, m, hi);
        } else {
          InsertOrdered(t.right, m, hi, if i < t.i then t.i else i, if i < t.i then t.val else val);
          HalvingKeys(t.left, lo, m);
        }
      }
    }

    /** Set keeps every subVal the product of its subtree. */
    lemma {:induction false} InsertAgg(t: Node<T>, lo: int, hi: int, i: int, val: T)
      requires IsMonoid(op, e())
      requires lo <= i < hi && Halving(t, lo, hi) && Agg(t)
      ensures Agg(Insert(t, lo, hi, i, val))
      decreases hi - lo
    {
      if t.Nil? {
        assert op(op(e(), val), e()) == val;
      } else if i != t.i {
        MidInside(lo, hi);
        var m := Mid(lo, hi);
        if i < m {
          InsertAgg(t.left, lo, m, if i > t.i then t.i else i, if i > t.i then t.val else val);
        } else {
          InsertAgg(t.right, m, hi, if i < t.i then t.i else i, if i < t.i then t.val else val);
        }
      }
    }

    /** After Set(i, val) the search finds val at i and the old value at
        every other index. */
    lemma {:induction false} InsertFind(t: Node<T>, lo: int, hi: int, i: int, val: T, j: int)
      requires lo <= i < hi && Halving(t, lo, hi) && Ordered(t)
      ensures Find(Insert(t, lo, hi, i, val), j) == if j == i then Some(val) else Find(t, j)
      decreases hi - lo
    {
      if t.Node? && i != t.i {
        MidInside(lo, hi);
        var m := Mid(lo, hi);
        HalvingKeys(t.left, lo, m);
        HalvingKeys(t.right, m, hi);
        FindKeys(t.left, j);
        FindKeys(t.right, j);
        if i < m {
          InsertFind(t.left, lo, m, if i > t.i then t.i else i, if i > t.i then t.val else val, j);
        } else {
          InsertFind(t.right, m, hi, if i < t.i then t.i else i, if i < t.i then t.val else val, j);
        }
      }
    }

    /** Set(i, val): the new value at i, every other index unchanged; an index
        outside [l, r) panics and changes nothing. */
    method Set(i: int, val: T) returns (ok: bool)
      requires Valid() && IsMonoid(op, e())
      modifies this
      ensures Valid()
      ensures ok <==> InRange(i)
      ensures ok ==> root == Insert(old(root), l, r, i, val)
      ensures !ok ==> root == old(root)
      ensures forall j :: Find(root, j) == if ok && j == i then Some(val) else Find(old(root), j)
    {
      if !InRange(i) {
        return false;
      }
      ghost var t := root;
      root := Insert(root, l, r, i, val);
      InsertOrdered(t, l, r, i, val);
      InsertAgg(t, l, r, i, val);
      forall j
        ensures Find(root, j) == if j == i then Some(val) else Find(t, j)
      {
        InsertFind(t, l, r, i, val, j);
      }
      return true;
    }

    /** Get(i): the search loop; an index never set reads as e(). */
    method Get(i: int) returns (res: Outcome<T>)
      ensures res.OutOfRange? <==> !InRange(i)
      ensures res.Ok? ==> res.value == match Find(root, i) case Some(v) => v case None => e()
    {
      if !InRange(i) {
        return OutOfRange;
      }
      var now := root;
      while now.Node?
        invariant Find(now, i) == Find(root, i)
        decreases now
      {
        if i == now.i {
          return Ok(now.val);
        } else if i < now.i {
          now := now.left;
        } else {
          now := now.right;
        }
      }
      return Ok(e());
    }

    /** product(n, argL, argR, l, r): the product of the values of n's
        subtree at indices in [argL, argR), where [l, r) bounds the subtree's
        indices. */
    function ProductRec(t: Node<T>, argL: int, argR: int, lo: int, hi: int): T
      decreases t
    {
      if t.Nil? || hi <= argL || argR <= lo then e()
      else if argL <= lo && hi <= argR then t.subVal
      else
        var res := ProductRec(t.left, argL, argR, lo, t.i);
        var res' := if argL <= t.i < argR then op(res, t.val) else res;
        op(res', ProductRec(t.right, argL, argR, t.i + 1, hi))
    }

    /** The product over a node's window, from the products over its children's. */
    lemma NodeProduct(t: Node<T>, a: int, b: int, pl: T, pr: T)
      requires IsMonoid(op, e()) && t.Node? && Ordered(t)
      requires pl == Fold(op, e(), Stored(t.left, a, b)) && pr == Fold(op, e(), Stored(t.right, a, b))
      ensures op(if a <= t.i < b then op(pl, t.val) else pl, pr) == Fold(op, e(), Stored(t, a, b))
    {
      NodeStored(t, a, b);
      var sl, sr := Stored(t.left, a, b), Stored(t.right, a, b);
      if a <= t.i < b {
        FoldSnoc(op, e(), sl, t.val);
        FoldAppend(op, e(), sl + [t.val], sr);
      } else {
        assert sl + [] + sr == sl + sr;
        FoldAppend(op, e(), sl, sr);
      }
    }

    /** A subtree's subVal is the product of all its values, in index order. */
    lemma {:induction false} SubValFold(t: Node<T>, a: int, b: int)
      requires IsMonoid(op, e()) && Agg(t) && Ordered(t)
      requires forall k :: k in Keys(t) ==> a <= k < b
      ensures SubtreeVal(t) == Fold(op, e(), Stored(t, a, b))
    {
      if t.Nil? {
        StoredNil<T>(a, b);
      } else {
        assert Keys(t.left) <= Keys(t) && Keys(t.right) <= Keys(t);
        SubValFold(t.left, a, b);
        SubValFold(t.right, a, b);
        NodeProduct(t, a, b, SubtreeVal(t.left), SubtreeVal(t.right));
      }
    }

    /** product computes the product of the stored values in [argL, argR). */
    lemma {:induction false} ProductRecFold(t: Node<T>, argL: int, argR: int, lo: int, hi: int)
      requires IsMonoid(op, e()) && Agg(t) && Ordered(t)
      requires forall k :: k in Keys(t) ==> lo <= k < hi
      ensures ProductRec(t, argL, argR, lo, hi) == Fold(op, e(), Stored(t, argL, argR))
      decreases t
    {
      if t.Nil? {
        StoredNil<T>(argL, argR);
      } else if hi <= argL || argR <= lo {
        StoredOutside(t, argL, argR);
      } else if argL <= lo && hi <= argR {
        SubValFold(t, argL, argR);
      } else {
        assert Keys(t.left) <= Keys(t) && Keys(t.right) <= Keys(t);
        ProductRecFold(t.left, argL, argR, lo, t.i);
        ProductRecFold(t.right, argL, argR, t.i + 1, hi);
        NodeProduct(t, argL, argR, ProductRec(t.left, argL, argR, lo, t.i),
                    ProductRec(t.right, argL, argR, t.i + 1, hi));
      }
    }

    /** Product(argL, argR): the product of the values stored at the indices
        of [argL, argR), in increasing index order; e() for an empty tree or
        window; panics when the window leaves [l, r). */
    method Product(argL: int, argR: int) returns (res: Outcome<T>)
      requires Valid() && IsMonoid(op, e())
      ensures res.OutOfRange? <==> argL < l || r < argR
      ensures res.Ok? ==> res.value == Fold(op, e(), Stored(root, argL, argR))
    {
      if argL < l || r < argR {
        return OutOfRange;
      }
      if root.Nil? || argL == argR {
        StoredNil<T>(argL, argR);
        return Ok(e());
      }
      HalvingKeys(root, l, r);
      ProductRecFold(root, argL, argR, l, r);
      return Ok(ProductRec(root, argL, argR, l, r));
    }

    /** ProductAll: root.subVal, which dereferences nil on an empty tree. */
    method ProductAll() returns (res: T)
      requires Valid() && IsMonoid(op, e()) && root.Node?
      ensures res == Fold(op, e(), Contents())
    {
      HalvingKeys(root, l, r);
      SubValFold(root, l, r);
      res := root.subVal;
    }
  }
}
