/** The treap ordered map and its set wrapper (data-structure/treap/treap.go).
    The map is the in-order sequence of the tree's entries, kept strictly
    increasing by key (no key is stored twice); priorities are kept in heap
    order. Keys are ints under their natural order. */
module TreapMap {
  import opened Algebra
  import opened TreapTree

  /** SearchLeft's acceptance test: a key at most k (eq) or below k. */
  predicate LeftOf(x: int, k: int, eq: bool) {
    if eq then x <= k else x < k
  }

  /** SearchRight's acceptance test: a key at least k (eq) or above k. */
  predicate RightOf(x: int, k: int, eq: bool) {
    if eq then k <= x else k < x
  }

  /** res is the entry with the greatest accepted key, or none when no key
      is accepted. */
  ghost predicate GreatestLeft<V>(s: seq<Entry<V>>, k: int, eq: bool, res: Option<Entry<V>>) {
    && (res.None? <==> forall i :: 0 <= i < |s| ==> !LeftOf(s[i].key, k, eq))
    && (res.Some? ==>
          && res.value in s && LeftOf(res.value.key, k, eq)
          && forall i :: 0 <= i < |s| && LeftOf(s[i].key, k, eq) ==> s[i].key <= res.value.key)
  }

  /** res is the entry with the least accepted key, or none when no key is
      accepted. */
  ghost predicate LeastRight<V>(s: seq<Entry<V>>, k: int, eq: bool, res: Option<Entry<V>>) {
    && (res.None? <==> forall i :: 0 <= i < |s| ==> !RightOf(s[i].key, k, eq))
    && (res.Some? ==>
          && res.value in s && RightOf(res.value.key, k, eq)
          && forall i :: 0 <= i < |s| && RightOf(s[i].key, k, eq) ==> res.value.key <= s[i].key)
  }

  /** When a sorted sequence splits into the accepted entries and the rest,
      the last accepted one is the greatest. */
  lemma LastIsGreatestLeft<V>(p: seq<Entry<V>>, q: seq<Entry<V>>, k: int, eq: bool)
    requires Sorted(p + q)
    requires forall i :: 0 <= i < |p| ==> LeftOf(p[i].key, k, eq)
    requires forall i :: 0 <= i < |q| ==> !LeftOf(q[i].key, k, eq)
    ensures GreatestLeft(p + q, k, eq, LastOf(p))
  {
    var s := p + q;
    if |p| > 0 {
      assert s[|p| - 1] == p[|p| - 1];
      forall i | 0 <= i < |s| && LeftOf(s[i].key, k, eq)
        ensures s[i].key <= p[|p| - 1].key
      {
        if i < |p| {
          assert s[i] == p[i];
        }
      }
    } else {
      forall i | 0 <= i < |s|
        ensures !LeftOf(s[i].key, k, eq)
      {
        assert s[i] == q[i];
      }
    }
  }

  /** When a sorted sequence splits into the rejected entries and the
      accepted ones, the first accepted one is the least. */
  lemma FirstIsLeastRight<V>(p: seq<Entry<V>>, q: seq<Entry<V>>, k: int, eq: bool)
    requires Sorted(p + q)
    requires forall i :: 0 <= i < |p| ==> !RightOf(p[i].key, k, eq)
    requires forall i :: 0 <= i < |q| ==> RightOf(q[i].key, k, eq)
    ensures LeastRight(p + q, k, eq, FirstOf(q))
  {
    var s := p + q;
    if |q| > 0 {
      assert s[|p|] == q[0];
      forall i | 0 <= i < |s| && RightOf(s[i].key, k, eq)
        ensures q[0].key <= s[i].key
      {
        if i >= |p| {
          assert s[i] == q[i - |p|];
        }
      }
    } else {
      forall i | 0 <= i < |s|
        ensures !RightOf(s[i].key, k, eq)
      {
        assert s[i] == p[i];
      }
    }
  }

  /** find landing on k's node: the in-order sequence is the entries below
      k, k's entry, and the entries above k. */
  lemma FoundSplit<V>(path: seq<Frame<V>>, now: Tree<V>, k: int)
    requires SearchPath(path, k) && Sorted(InOrder(Plug(path, now))) && now.Node? && now.key == k
    ensures InOrder(Plug(path, now))
            == (Before(path) + InOrder(now.left)) + [Entry(k, now.val)] + (InOrder(now.right) + After(path))
    ensures Sorted(Before(path) + InOrder(now.left)) && Sorted(InOrder(now.right) + After(path))
    ensures Below(Before(path) + InOrder(now.left), k) && Above(InOrder(now.right) + After(path), k)
  {
    PlugInOrder(path, now);
    assert InOrder(now) == InOrder(now.left) + [Entry(k, now.val)] + InOrder(now.right);
    SplitAround(Before(path), InOrder(now.left), Entry(k, now.val), InOrder(now.right), After(path));
  }

  lemma Regroup<V>(b: seq<Entry<V>>, l: seq<Entry<V>>, e: Entry<V>, r: seq<Entry<V>>, a: seq<Entry<V>>)
    ensures b + (l + [e] + r) + a == (b + l) + [e] + (r + a)
  {
  }

  lemma SplitAround<V>(b: seq<Entry<V>>, l: seq<Entry<V>>, e: Entry<V>, r: seq<Entry<V>>, a: seq<Entry<V>>)
    requires Sorted(b + (l + [e] + r) + a)
    ensures b + (l + [e] + r) + a == (b + l) + [e] + (r + a)
    ensures Sorted(b + l) && Sorted(r + a) && Below(b + l, e.key) && Above(r + a, e.key)
  {
    Regroup(b, l, e, r, a);
    SortedPieces(b + l, [e], r + a);
    SortedMiddle(b + l, e, r + a);
  }

  /** find landing on k's node: the map holds now's value for k. */
  lemma FoundLookup<V>(path: seq<Frame<V>>, now: Tree<V>, k: int)
    requires SearchPath(path, k) && Sorted(InOrder(Plug(path, now))) && now.Node? && now.key == k
    ensures Lookup(InOrder(Plug(path, now)), k) == Some(now.val)
  {
    FoundSplit(path, now, k);
    EntryLookup(Before(path) + InOrder(now.left), Entry(k, now.val), InOrder(now.right) + After(path), k);
  }

  /** find ending at a nil child: the map holds nothing for k. */
  lemma MissingLookup<V>(path: seq<Frame<V>>, k: int)
    requires SearchPath(path, k) && Sorted(InOrder(Plug(path, Nil)))
    ensures Lookup(InOrder(Plug(path, Nil)), k) == None
  {
    FindSplit(path, Nil, k);
    assert InOrder(Plug(path, Nil)) == Before(path) + After(path);
    LookupGone(Before(path), After(path), k);
  }

  /** SearchLeft when find lands on k's node: k's own entry when equality is
      allowed, otherwise the in-order predecessor. */
  lemma LeftFound<V>(path: seq<Frame<V>>, now: Tree<V>, k: int, eq: bool)
    requires SearchPath(path, k) && Sorted(InOrder(Plug(path, now))) && now.Node? && now.key == k
    ensures GreatestLeft(InOrder(Plug(path, now)), k, eq,
                         if eq then Some(Entry(k, now.val)) else LastOf(Before(path) + InOrder(now.left)))
  {
    FoundSplit(path, now, k);
    LeftAround(Before(path) + InOrder(now.left), Entry(k, now.val), InOrder(now.right) + After(path), eq);
  }

  lemma LeftAround<V>(p: seq<Entry<V>>, e: Entry<V>, q: seq<Entry<V>>, eq: bool)
    requires Sorted(p + [e] + q) && Below(p, e.key) && Above(q, e.key)
    ensures GreatestLeft(p + [e] + q, e.key, eq, if eq then Some(e) else LastOf(p))
  {
    var k := e.key;
    if eq {
      assert forall i :: 0 <= i < |p + [e]| ==> (p + [e])[i].key <= k;
      LastIsGreatestLeft(p + [e], q, k, eq);
    } else {
      assert forall i :: 0 <= i < |[e] + q| ==> ([e] + q)[i].key >= k;
      assert p + [e] + q == p + ([e] + q);
      LastIsGreatestLeft(p, [e] + q, k, eq);
    }
  }

  /** SearchLeft when find ends at a nil child: the last entry before it. */
  lemma LeftMissing<V>(path: seq<Frame<V>>, k: int, eq: bool)
    requires SearchPath(path, k) && Sorted(InOrder(Plug(path, Nil)))
    ensures GreatestLeft(InOrder(Plug(path, Nil)), k, eq, LastOf(Before(path)))
  {
    FindSplit(path, Nil, k);
    assert InOrder(Plug(path, Nil)) == Before(path) + After(path);
    LastIsGreatestLeft(Before(path), After(path), k, eq);
  }

  /** SearchRight when find lands on k's node: k's own entry when equality
      is allowed, otherwise the in-order successor. */
  lemma RightFound<V>(path: seq<Frame<V>>, now: Tree<V>, k: int, eq: bool)
    requires SearchPath(path, k) && Sorted(InOrder(Plug(path, now))) && now.Node? && now.key == k
    ensures LeastRight(InOrder(Plug(path, now)), k, eq,
                       if eq then Some(Entry(k, now.val)) else FirstOf(InOrder(now.right) + After(path)))
  {
    FoundSplit(path, now, k);
    RightAround(Before(path) + InOrder(now.left), Entry(k, now.val), InOrder(now.right) + After(path), eq);
  }

  lemma RightAround<V>(p: seq<Entry<V>>, e: Entry<V>, q: seq<Entry<V>>, eq: bool)
    requires Sorted(p + [e] + q) && Below(p, e.key) && Above(q, e.key)
    ensures LeastRight(p + [e] + q, e.key, eq, if eq then Some(e) else FirstOf(q))
  {
    var k := e.key;
    if eq {
      assert forall i :: 0 <= i < |[e] + q| ==> ([e] + q)[i].key >= k;
      assert p + [e] + q == p + ([e] + q);
      FirstIsLeastRight(p, [e] + q, k, eq);
    } else {
      assert forall i :: 0 <= i < |p + [e]| ==> (p + [e])[i].key <= k;
      FirstIsLeastRight(p + [e], q, k, eq);
    }
  }

  /** SearchRight when find ends at a nil child: the first entry after it. */
  lemma RightMissing<V>(path: seq<Frame<V>>, k: int, eq: bool)
    requires SearchPath(path, k) && Sorted(InOrder(Plug(path, Nil)))
    ensures LeastRight(InOrder(Plug(path, Nil)), k, eq, FirstOf(After(path)))
  {
    FindSplit(path, Nil, k);
    assert InOrder(Plug(path, Nil)) == Before(path) + After(path);
    FirstIsLeastRight(Before(path), After(path), k, eq);
  }

  /** The new leaf that Set links at find's nil position. */
  lemma InsertAt<V>(path: seq<Frame<V>>, k: int, v: V, pri: nat)
    requires SearchPath(path, k) && Sorted(InOrder(Plug(path, Nil)))
    ensures Sorted(InOrder(Plug(path, Node(Nil, k, v, pri, Nil))))
    ensures |InOrder(Plug(path, Node(Nil, k, v, pri, Nil)))| == |InOrder(Plug(path, Nil))| + 1
    ensures Lookup(InOrder(Plug(path, Nil)), k) == None
    ensures Assigned(InOrder(Plug(path, Node(Nil, k, v, pri, Nil))), InOrder(Plug(path, Nil)), k, Some(v))
  {
    var leaf := Node(Nil, k, v, pri, Nil);
    FindSplit(path, Nil, k);
    PlugInOrder(path, leaf);
    var b, a := Before(path), After(path);
    assert InOrder(Plug(path, Nil)) == b + a;
    assert InOrder(Plug(path, leaf)) == b + [Entry(k, v)] + a;
    SortedJoin(b, Entry(k, v), a);
    LookupGone(b, a, k);
    forall j
      ensures Lookup(b + [Entry(k, v)] + a, j) == if j == k then Some(v) else Lookup(b + a, j)
    {
      EntryLookup(b, Entry(k, v), a, j);
    }
  }

  /** Set overwriting the value of the node find landed on. */
  lemma ReplaceAt<V>(path: seq<Frame<V>>, now: Tree<V>, k: int, v: V)
    requires SearchPath(path, k) && Sorted(InOrder(Plug(path, now))) && now.Node? && now.key == k
    ensures Sorted(InOrder(Plug(path, Node(now.left, k, v, now.pri, now.right))))
    ensures |InOrder(Plug(path, Node(now.left, k, v, now.pri, now.right)))| == |InOrder(Plug(path, now))|
    ensures Lookup(InOrder(Plug(path, now)), k).Some?
    ensures Assigned(InOrder(Plug(path, Node(now.left, k, v, now.pri, now.right))), InOrder(Plug(path, now)), k, Some(v))
  {
    var u := Node(now.left, k, v, now.pri, now.right);
    FoundSplit(path, now, k);
    PlugInOrder(path, u);
    var p, q := Before(path) + InOrder(now.left), InOrder(now.right) + After(path);
    Regroup(Before(path), InOrder(now.left), Entry(k, v), InOrder(now.right), After(path));
    ReplaceAround(p, Entry(k, now.val), Entry(k, v), q);
  }

  lemma ReplaceAround<V>(p: seq<Entry<V>>, e: Entry<V>, e': Entry<V>, q: seq<Entry<V>>)
    requires Sorted(p + [e] + q) && Below(p, e.key) && Above(q, e.key) && e'.key == e.key
    ensures Sorted(p + [e'] + q)
    ensures Lookup(p + [e] + q, e.key).Some?
    ensures Assigned(p + [e'] + q, p + [e] + q, e.key, Some(e'.val))
  {
    SortedPieces(p, [e], q);
    SortedJoin(p, e', q);
    EntryLookup(p, e, q, e.key);
    forall j
      ensures Lookup(p + [e'] + q, j) == if j == e.key then Some(e'.val) else Lookup(p + [e] + q, j)
    {
      EntryLookup(p, e', q, j);
      EntryLookup(p, e, q, j);
    }
  }

  /** Delete unlinking the leaf it has rotated k's node down to. */
  lemma RemoveAt<V>(path: seq<Frame<V>>, now: Tree<V>)
    requires now.Node? && now.left.Nil? && now.right.Nil? && Sorted(InOrder(Plug(path, now)))
    ensures Sorted(InOrder(Plug(path, Nil)))
    ensures |InOrder(Plug(path, Nil))| == |InOrder(Plug(path, now))| - 1
    ensures Assigned(InOrder(Plug(path, Nil)), InOrder(Plug(path, now)), now.key, None)
  {
    PlugInOrder(path, now);
    PlugInOrder(path, Nil);
    var b, e, a := Before(path), Entry(now.key, now.val), After(path);
    assert InOrder(Plug(path, now)) == b + [e] + a;
    assert InOrder(Plug(path, Nil)) == b + a;
    SortedDrop(b, e, a);
    SortedMiddle(b, e, a);
    LookupGone(b, a, now.key);
    forall j
      ensures Lookup(b + a, j) == if j == now.key then None else Lookup(b + [e] + a, j)
    {
      EntryLookup(b, e, a, j);
    }
  }

  /** Set's bubble-up loop (lines 256-262): while the new node outranks its
      parent, rotate it above the parent. */
  method BubbleUp<V>(path0: seq<Frame<V>>, c0: Tree<V>) returns (path: seq<Frame<V>>, c: Tree<V>)
    requires c0.Node? && c0.left.Nil? && c0.right.Nil? && PathHeap(path0)
    ensures InOrder(Plug(path, c)) == InOrder(Plug(path0, c0))
    ensures Heap(Plug(path, c))
  {
    path, c := path0, c0;
    while |path| > 0 && path[|path| - 1].pri < c.pri
      invariant c.Node? && PathHeap(path) && Heap(c)
      invariant Under(ParentPri(path), RootPri(c.left)) && Under(ParentPri(path), RootPri(c.right))
      invariant InOrder(Plug(path, c)) == InOrder(Plug(path0, c0))
      decreases |path|
    {
      LiftInOrder(path, c);
      LiftHeap(path, c);
      var z := Lift(path, c);
      path, c := z.0, z.1;
    }
    HeapPlug(path, c);
  }

  /** Delete's loop (lines 277-290): while the node has a child, rotate the
      child of higher priority (the right one on a tie) above it. */
  method SinkDown<V>(path0: seq<Frame<V>>, n0: Tree<V>) returns (path: seq<Frame<V>>, n: Tree<V>)
    requires n0.Node? && PathHeap(path0) && Heap(n0) && Under(ParentPri(path0), n0.pri)
    ensures n.Node? && n.left.Nil? && n.right.Nil? && n.key == n0.key && n.val == n0.val
    ensures InOrder(Plug(path, n)) == InOrder(Plug(path0, n0))
    ensures Heap(Plug(path, Nil))
  {
    path, n := path0, n0;
    while n.left.Node? || n.right.Node?
      invariant n.Node? && n.key == n0.key && n.val == n0.val
      invariant PathHeap(path) && Heap(n.left) && Heap(n.right)
      invariant Under(ParentPri(path), RootPri(n.left)) && Under(ParentPri(path), RootPri(n.right))
      invariant InOrder(Plug(path, n)) == InOrder(Plug(path0, n0))
      decreases |InOrder(n)|
    {
      var toLeft := if n.left.Node? && n.right.Node? then n.left.pri > n.right.pri else n.left.Node?;
      SinkInOrder(path, n, toLeft);
      SinkHeap(path, n, toLeft);
      var z := Sink(path, n, toLeft);
      assert |InOrder(Attach(z.0[|path|], z.1))| > |InOrder(z.1)|;
      path, n := z.0, z.1;
    }
    HeapPlug(path, Nil);
  }

  class Treap<V> {
    var len: int
    var root: Tree<V>

    /** The map, as its entries in increasing key order. */
    ghost function Entries(): seq<Entry<V>>
      reads this
    {
      InOrder(root)
    }

    ghost predicate Valid()
      reads this
    {
      Sorted(InOrder(root)) && Heap(root) && len == |InOrder(root)|
    }

    /** NewOrderedMap: an empty map. */
    constructor ()
      ensures Valid() && Entries() == []
    {
      len := 0;
      root := Nil;
    }

    /** Len: the number of keys stored. */
    function Len(): (n: int)
      requires Valid()
      reads this
      ensures n == |Entries()|
    {
      len
    }

    /** find(k): the walk from the root to k's node, or to the nil child
        where k would hang; the path's last frame is find's `parent`. */
    method Find(k: int) returns (path: seq<Frame<V>>, now: Tree<V>)
      ensures Plug(path, now) == root && SearchPath(path, k)
      ensures now.Nil? || now.key == k
    {
      path, now := [], root;
      while now.Node? && now.key != k
        invariant Plug(path, now) == root && SearchPath(path, k)
        decreases now
      {
        var f := Frame(k < now.key, now.key, now.val, now.pri, if k < now.key then now.right else now.left);
        var child := if k < now.key then now.left else now.right;
        PushFrame(path, f, child);
        path, now := path + [f], child;
      }
    }

    /** prev(nd): the entry just before nd's in the in-order sequence: the
        rightmost node of nd's left subtree, or else the nearest ancestor
        reached by climbing out of a right child. */
    method Prev(path: seq<Frame<V>>, nd: Tree<V>) returns (res: Option<Entry<V>>)
      ensures nd.Nil? ==> res.None?
      ensures nd.Node? ==> res == LastOf(Before(path) + InOrder(nd.left))
    {
      if nd.Nil? {
        return None;
      }
      if nd.left.Node? {
        var t := nd.left;
        while t.right.Node?
          invariant t.Node? && LastOf(InOrder(t)) == LastOf(InOrder(nd.left))
          decreases t
        {
          LastOfNode(t);
          t := t.right;
        }
        LastOfNode(t);
        return Some(Entry(t.key, t.val));
      }
      assert Before(path) + InOrder(nd.left) == Before(path);
      var p := path;
      while |p| > 0 && p[|p| - 1].holeLeft
        invariant Before(p) == Before(path)
        decreases |p|
      {
        assert Before(p) == Before(p[..|p| - 1]) + [];
        p := p[..|p| - 1];
      }
      if |p| > 0 {
        return Some(Entry(p[|p| - 1].key, p[|p| - 1].val));
      }
      return None;
    }

    /** next(nd): the entry just after nd's in the in-order sequence. */
    method Next(path: seq<Frame<V>>, nd: Tree<V>) returns (res: Option<Entry<V>>)
      ensures nd.Nil? ==> res.None?
      ensures nd.Node? ==> res == FirstOf(InOrder(nd.right) + After(path))
    {
      if nd.Nil? {
        return None;
      }
      if nd.right.Node? {
        var t := nd.right;
        while t.left.Node?
          invariant t.Node? && FirstOf(InOrder(t)) == FirstOf(InOrder(nd.right))
          decreases t
        {
          FirstOfNode(t);
          t := t.left;
        }
        FirstOfNode(t);
        return Some(Entry(t.key, t.val));
      }
      assert InOrder(nd.right) + After(path) == After(path);
      var p := path;
      while |p| > 0 && !p[|p| - 1].holeLeft
        invariant After(p) == After(path)
        decreases |p|
      {
        assert After(p) == [] + After(p[..|p| - 1]);
        p := p[..|p| - 1];
      }
      if |p| > 0 {
        return Some(Entry(p[|p| - 1].key, p[|p| - 1].val));
      }
      return None;
    }

    /** Set(k, v): k now maps to v and every other key keeps its value; the
        size grows exactly when k was absent. `pri` is the new node's random
        priority. */
    method Set(k: int, v: V, pri: nat)
      requires Valid()
      modifies this
      ensures Valid()
      ensures Assigned(Entries(), old(Entries()), k, Some(v))
      ensures len == old(len) + (if Lookup(old(Entries()), k).None? then 1 else 0)
    {
      if len == 0 {
        root := Node(Nil, k, v, pri, Nil);
        len := len + 1;
        InsertAt([], k, v, pri);
        return;
      }
      var path, now := Find(k);
      if now.Node? {
        ReplaceAt(path, now, k, v);
        HeapUnplug(path, now);
        HeapPlug(path, Node(now.left, k, v, now.pri, now.right));
        root := Plug(path, Node(now.left, k, v, now.pri, now.right));
        return;
      }
      InsertAt(path, k, v, pri);
      HeapUnplug(path, now);
      var path', now' := BubbleUp(path, Node(Nil, k, v, pri, Nil));
      root := Plug(path', now');
      len := len + 1;
    }

    /** Get(k): the value stored for k, or none when k is absent. */
    method Get(k: int) returns (res: Option<V>)
      requires Valid()
      ensures res == Lookup(Entries(), k)
    {
      var path, now := Find(k);
      if now.Node? {
        FoundLookup(path, now, k);
        return Some(now.val);
      }
      MissingLookup(path, k);
      return None;
    }

    /** Delete(k): k no longer has a value and every other key keeps its
        own; the size shrinks exactly when k was present. */
    method Delete(k: int)
      requires Valid()
      modifies this
      ensures Valid()
      ensures Assigned(Entries(), old(Entries()), k, None)
      ensures len == old(len) - (if Lookup(old(Entries()), k).Some? then 1 else 0)
    {
      var path, now := Find(k);
      if now.Nil? {
        MissingLookup(path, k);
        return;
      }
      FoundLookup(path, now, k);
      HeapUnplug(path, now);
      var path', leaf := SinkDown(path, now);
      RemoveAt(path', leaf);
      root := Plug(path', Nil);
      len := len - 1;
    }

    /** Min: the entry with the smallest key, or none on an empty map. */
    method Min() returns (res: Option<Entry<V>>)
      requires Valid()
      ensures res.None? <==> |Entries()| == 0
      ensures res.Some? ==> res.value in Entries()
      ensures res.Some? ==> forall i :: 0 <= i < |Entries()| ==> res.value.key <= Entries()[i].key
    {
      if len == 0 {
        return None;
      }
      var now := root;
      while now.left.Node?
        invariant now.Node? && FirstOf(InOrder(now)) == FirstOf(InOrder(root))
        decreases now
      {
        FirstOfNode(now);
        now := now.left;
      }
      FirstOfNode(now);
      res := Some(Entry(now.key, now.val));
    }

    /** Max: the entry with the largest key, or none on an empty map. */
    method Max() returns (res: Option<Entry<V>>)
      requires Valid()
      ensures res.None? <==> |Entries()| == 0
      ensures res.Some? ==> res.value in Entries()
      ensures res.Some? ==> forall i :: 0 <= i < |Entries()| ==> Entries()[i].key <= res.value.key
    {
      if len == 0 {
        return None;
      }
      var now := root;
      while now.right.Node?
        invariant now.Node? && LastOf(InOrder(now)) == LastOf(InOrder(root))
        decreases now
      {
        LastOfNode(now);
        now := now.right;
      }
      LastOfNode(now);
      res := Some(Entry(now.key, now.val));
    }

    /** SearchLeft(k, eq): the entry with the greatest key <= k (eq) or < k. */
    method SearchLeft(k: int, eq: bool) returns (res: Option<Entry<V>>)
      requires Valid()
      ensures GreatestLeft(Entries(), k, eq, res)
    {
      var path, now := Find(k);
      if now.Node? {
        LeftFound(path, now, k, eq);
        if eq {
          res := Some(Entry(k, now.val));
        } else {
          res := Prev(path, now);
        }
        return;
      }
      LeftMissing(path, k, eq);
      if |path| > 0 {
        var par := path[|path| - 1];
        LastOfBefore(path);
        if k > par.key {
          res := Some(Entry(par.key, par.val));
        } else {
          assert InOrder(Attach(par, now).left) == [];
          res := Prev(path[..|path| - 1], Attach(par, now));
        }
      } else {
        res := None;
      }
    }

    /** SearchRight(k, eq): the entry with the least key >= k (eq) or > k. */
    method SearchRight(k: int, eq: bool) returns (res: Option<Entry<V>>)
      requires Valid()
      ensures LeastRight(Entries(), k, eq, res)
    {
      var path, now := Find(k);
      if now.Node? {
        RightFound(path, now, k, eq);
        if eq {
          res := Some(Entry(k, now.val));
        } else {
          res := Next(path, now);
        }
        return;
      }
      RightMissing(path, k, eq);
      if |path| > 0 {
        var par := path[|path| - 1];
        FirstOfAfter(path);
        if k < par.key {
          res := Some(Entry(par.key, par.val));
        } else {
          assert InOrder(Attach(par, now).right) == [];
          res := Next(path[..|path| - 1], Attach(par, now));
        }
      } else {
        res := None;
      }
    }
  }

  /** The keys of a sequence of entries. */
  ghost function KeySet<V>(s: seq<Entry<V>>): set<int> {
    set i | 0 <= i < |s| :: s[i].key
  }

  /** The key of an optional entry. */
  function KeyOf<V>(r: Option<Entry<V>>): Option<int> {
    if r.Some? then Some(r.value.key) else None
  }

  /** A key is in the key set exactly when Lookup finds it. */
  lemma KeySetLookup<V>(s: seq<Entry<V>>, j: int)
    ensures j in KeySet(s) <==> Lookup(s, j).Some?
  {
    LookupMeaning(s, j);
    if j in KeySet(s) {
      var i :| 0 <= i < |s| && s[i].key == j;
    }
  }

  /** No key is stored twice: a sorted sequence has as many keys as entries. */
  lemma {:induction false} KeySetSize<V>(s: seq<Entry<V>>)
    requires Sorted(s)
    ensures |KeySet(s)| == |s|
    decreases |s|
  {
    if |s| > 0 {
      var p, e := s[..|s| - 1], s[|s| - 1];
      assert s == p + [e];
      assert Sorted(p) by {
        forall i, j | 0 <= i < j < |p|
          ensures p[i].key < p[j].key
        {
          assert p[i] == s[i] && p[j] == s[j];
        }
      }
      KeySetSize(p);
      KeySetSnoc(p, e);
      assert e.key !in KeySet(p) by {
        forall x | x in KeySet(p)
          ensures x < e.key
        {
          var i :| 0 <= i < |p| && p[i].key == x;
          assert p[i] == s[i];
        }
      }
    }
  }

  /** Appending an entry adds its key. */
  lemma KeySetSnoc<V>(p: seq<Entry<V>>, e: Entry<V>)
    ensures KeySet(p + [e]) == KeySet(p) + {e.key}
  {
    var s := p + [e];
    forall x | x in KeySet(s)
      ensures x in KeySet(p) + {e.key}
    {
      var i :| 0 <= i < |s| && s[i].key == x;
      if i < |p| {
        assert p[i] == s[i];
      }
    }
    forall x | x in KeySet(p)
      ensures x in KeySet(s)
    {
      var i :| 0 <= i < |p| && p[i].key == x;
      assert s[i] == p[i];
    }
    assert s[|p|] == e;
  }

  /** An entry of the sequence contributes its key. */
  lemma KeyIn<V>(s: seq<Entry<V>>, e: Entry<V>)
    requires e in s
    ensures e.key in KeySet(s)
  {
    var i :| 0 <= i < |s| && s[i] == e;
  }

  /** GreatestLeft over the entries, read over their keys. */
  lemma GreatestLeftKeys<V>(s: seq<Entry<V>>, k: int, eq: bool, r: Option<Entry<V>>)
    requires GreatestLeft(s, k, eq, r)
    ensures KeyOf(r).None? <==> forall x :: x in KeySet(s) ==> !LeftOf(x, k, eq)
    ensures KeyOf(r).Some? ==> KeyOf(r).value in KeySet(s) && LeftOf(KeyOf(r).value, k, eq)
    ensures KeyOf(r).Some? ==> forall x :: x in KeySet(s) && LeftOf(x, k, eq) ==> x <= KeyOf(r).value
  {
    if r.Some? {
      KeyIn(s, r.value);
    } else {
      forall x | x in KeySet(s)
        ensures !LeftOf(x, k, eq)
      {
        var i :| 0 <= i < |s| && s[i].key == x;
      }
    }
  }

  /** LeastRight over the entries, read over their keys. */
  lemma LeastRightKeys<V>(s: seq<Entry<V>>, k: int, eq: bool, r: Option<Entry<V>>)
    requires LeastRight(s, k, eq, r)
    ensures KeyOf(r).None? <==> forall x :: x in KeySet(s) ==> !RightOf(x, k, eq)
    ensures KeyOf(r).Some? ==> KeyOf(r).value in KeySet(s) && RightOf(KeyOf(r).value, k, eq)
    ensures KeyOf(r).Some? ==> forall x :: x in KeySet(s) && RightOf(x, k, eq) ==> KeyOf(r).value <= x
  {
    if r.Some? {
      KeyIn(s, r.value);
    } else {
      forall x | x in KeySet(s)
        ensures !RightOf(x, k, eq)
      {
        var i :| 0 <= i < |s| && s[i].key == x;
      }
    }
  }

  /** The set wrapper: an ordered map whose values carry nothing. */
  class TreapSet {
    const m: Treap<()>

    /** The elements of the set. */
    ghost function Members(): set<int>
      reads this, m
    {
      KeySet(m.Entries())
    }

    ghost predicate Valid()
      reads this, m
    {
      m.Valid()
    }

    /** NewSet: an empty set. */
    constructor ()
      ensures Valid() && Members() == {}
    {
      m := new Treap<()>();
    }

    /** Len: the number of elements. */
    function Len(): (n: int)
      requires Valid()
      reads this, m
      ensures n == |Members()|
    {
      KeySetSize(m.Entries());
      m.Len()
    }

    /** Set(k): k becomes an element. */
    method Set(k: int, pri: nat)
      requires Valid()
      modifies m
      ensures Valid() && Members() == old(Members()) + {k}
    {
      ghost var s0 := m.Entries();
      m.Set(k, (), pri);
      forall j
        ensures j in Members() <==> j in KeySet(s0) + {k}
      {
        KeySetLookup(m.Entries(), j);
        KeySetLookup(s0, j);
      }
    }

    /** Get(k): whether k is an element. */
    method Get(k: int) returns (b: bool)
      requires Valid()
      ensures b <==> k in Members()
    {
      var r := m.Get(k);
      KeySetLookup(m.Entries(), k);
      b := r.Some?;
    }

    /** Delete(k): k is no longer an element. */
    method Delete(k: int)
      requires Valid()
      modifies m
      ensures Valid() && Members() == old(Members()) - {k}
    {
      ghost var s0 := m.Entries();
      m.Delete(k);
      forall j
        ensures j in Members() <==> j in KeySet(s0) - {k}
      {
        KeySetLookup(m.Entries(), j);
        KeySetLookup(s0, j);
      }
    }

    /** Min: the least element, or none on an empty set. */
    method Min() returns (res: Option<int>)
      requires Valid()
      ensures res.None? <==> Members() == {}
      ensures res.Some? ==> res.value in Members() && forall x :: x in Members() ==> res.value <= x
    {
      var r := m.Min();
      res := KeyOf(r);
      ghost var s := m.Entries();
      if r.Some? {
        KeyIn(s, r.value);
        forall x | x in KeySet(s)
          ensures r.value.key <= x
        {
          var i :| 0 <= i < |s| && s[i].key == x;
        }
      } else {
        KeySetSize(s);
      }
    }

    /** Max: the greatest element, or none on an empty set. */
    method Max() returns (res: Option<int>)
      requires Valid()
      ensures res.None? <==> Members() == {}
      ensures res.Some? ==> res.value in Members() && forall x :: x in Members() ==> x <= res.value
    {
      var r := m.Max();
      res := KeyOf(r);
      ghost var s := m.Entries();
      if r.Some? {
        KeyIn(s, r.value);
        forall x | x in KeySet(s)
          ensures x <= r.value.key
        {
          var i :| 0 <= i < |s| && s[i].key == x;
        }
      } else {
        KeySetSize(s);
      }
    }

    /** SearchLeft(k, eq): the greatest element <= k (eq) or < k. */
    method SearchLeft(k: int, eq: bool) returns (res: Option<int>)
      requires Valid()
      ensures res.None? <==> forall x :: x in Members() ==> !LeftOf(x, k, eq)
      ensures res.Some? ==> res.value in Members() && LeftOf(res.value, k, eq)
      ensures res.Some? ==> forall x :: x in Members() && LeftOf(x, k, eq) ==> x <= res.value
    {
      var r := m.SearchLeft(k, eq);
      GreatestLeftKeys(m.Entries(), k, eq, r);
      res := KeyOf(r);
    }

    /** SearchRight(k, eq): the least element >= k (eq) or > k. */
    method SearchRight(k: int, eq: bool) returns (res: Option<int>)
      requires Valid()
      ensures res.None? <==> forall x :: x in Members() ==> !RightOf(x, k, eq)
      ensures res.Some? ==> res.value in Members() && RightOf(res.value, k, eq)
      ensures res.Some? ==> forall x :: x in Members() && RightOf(x, k, eq) ==> res.value <= x
    {
      var r := m.SearchRight(k, eq);
      LeastRightKeys(m.Entries(), k, eq, r);
      res := KeyOf(r);
    }
  }
}
