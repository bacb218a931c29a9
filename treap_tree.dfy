/** The node structure of the treap in data-structure/treap/treap.go, as
    values. A node's parent pointer is modelled by a zipper: the path of
    frames from the root down to a position, each frame holding an ancestor
    and the subtree on the side the path does not take. Walking down pushes a
    frame, following a parent pointer pops one, and `rotate` is a local
    rewrite of the last frame and the subtree at the position. */
module TreapTree {
  import opened Algebra

  /** A key/value pair as the map reports it. */
  datatype Entry<V> = Entry(key: int, val: V)

  /** A nil pointer or a node with its key, value and heap priority. */
  datatype Tree<V> = Nil | Node(left: Tree<V>, key: int, val: V, pri: nat, right: Tree<V>)

  /** An ancestor on a path: its key, value and priority, whether the path
      continues into its left child, and its other child. */
  datatype Frame<V> = Frame(holeLeft: bool, key: int, val: V, pri: nat, other: Tree<V>)

  /** The in-order sequence of entries: the map the treap represents. */
  ghost function InOrder<V>(t: Tree<V>): seq<Entry<V>> {
    match t
    case Nil => []
    case Node(l, k, v, _, r) => InOrder(l) + [Entry(k, v)] + InOrder(r)
  }

  /** The node of frame f with t in the place the path takes. */
  function Attach<V>(f: Frame<V>, t: Tree<V>): Tree<V> {
    if f.holeLeft then Node(t, f.key, f.val, f.pri, f.other)
    else Node(f.other, f.key, f.val, f.pri, t)
  }

  /** The whole tree rebuilt from a path and the subtree at its end. */
  function Plug<V>(path: seq<Frame<V>>, t: Tree<V>): Tree<V>
    decreases |path|
  {
    if |path| == 0 then t else Plug(path[..|path| - 1], Attach(path[|path| - 1], t))
  }

  /** The entries that come before the path's position in the in-order sequence. */
  ghost function Before<V>(path: seq<Frame<V>>): seq<Entry<V>>
    decreases |path|
  {
    if |path| == 0 then []
    else
      var f := path[|path| - 1];
      Before(path[..|path| - 1]) + (if f.holeLeft then [] else InOrder(f.other) + [Entry(f.key, f.val)])
  }

  /** The entries that come after the path's position in the in-order sequence. */
  ghost function After<V>(path: seq<Frame<V>>): seq<Entry<V>>
    decreases |path|
  {
    if |path| == 0 then []
    else
      var f := path[|path| - 1];
      (if f.holeLeft then [Entry(f.key, f.val)] + InOrder(f.other) else []) + After(path[..|path| - 1])
  }

  /** The in-order sequence of a plugged tree is what lies before the
      position, the subtree, and what lies after. */
  lemma {:induction false} PlugInOrder<V>(path: seq<Frame<V>>, t: Tree<V>)
    ensures InOrder(Plug(path, t)) == Before(path) + InOrder(t) + After(path)
    decreases |path|
  {
    if |path| > 0 {
      var p, f := path[..|path| - 1], path[|path| - 1];
      PlugInOrder(p, Attach(f, t));
    }
  }

  /** Replacing the subtree at a position by one with the same in-order
      sequence keeps the in-order sequence of the whole tree. */
  lemma PlugSame<V>(path: seq<Frame<V>>, t: Tree<V>, u: Tree<V>)
    requires InOrder(t) == InOrder(u)
    ensures InOrder(Plug(path, t)) == InOrder(Plug(path, u))
  {
    PlugInOrder(path, t);
    PlugInOrder(path, u);
  }

  /** Walking one step down pushes a frame. */
  lemma PushFrame<V>(path: seq<Frame<V>>, f: Frame<V>, t: Tree<V>)
    ensures Plug(path + [f], t) == Plug(path, Attach(f, t))
    ensures Before(path + [f]) == Before(path) + (if f.holeLeft then [] else InOrder(f.other) + [Entry(f.key, f.val)])
    ensures After(path + [f]) == (if f.holeLeft then [Entry(f.key, f.val)] + InOrder(f.other) else []) + After(path)
  {
    assert (path + [f])[..|path|] == path;
  }

  // ---------------------------------------------------------------------
  // Search-tree order, as a strictly increasing in-order sequence

  ghost predicate Sorted<V>(s: seq<Entry<V>>) {
    forall i, j :: 0 <= i < j < |s| ==> s[i].key < s[j].key
  }

  ghost predicate Below<V>(s: seq<Entry<V>>, k: int) {
    forall i :: 0 <= i < |s| ==> s[i].key < k
  }

  ghost predicate Above<V>(s: seq<Entry<V>>, k: int) {
    forall i :: 0 <= i < |s| ==> k < s[i].key
  }

  /** Each frame sends the search for k the way the comparison says. */
  ghost predicate SearchPath<V>(path: seq<Frame<V>>, k: int) {
    forall i :: 0 <= i < |path| ==> if path[i].holeLeft then k < path[i].key else path[i].key < k
  }

  lemma SortedPieces<V>(a: seq<Entry<V>>, b: seq<Entry<V>>, c: seq<Entry<V>>)
    requires Sorted(a + b + c)
    ensures Sorted(a) && Sorted(b) && Sorted(c)
  {
    var s := a + b + c;
    forall i, j | 0 <= i < j < |b|
      ensures b[i].key < b[j].key
    {
      assert b[i] == s[|a| + i] && b[j] == s[|a| + j];
    }
    forall i, j | 0 <= i < j < |c|
      ensures c[i].key < c[j].key
    {
      assert c[i] == s[|a| + |b| + i] && c[j] == s[|a| + |b| + j];
    }
    forall i, j | 0 <= i < j < |a|
      ensures a[i].key < a[j].key
    {
      assert a[i] == s[i] && a[j] == s[j];
    }
  }

  /** In a sorted sequence, what precedes an entry has smaller keys and what
      follows it larger ones. */
  lemma SortedMiddle<V>(a: seq<Entry<V>>, e: Entry<V>, c: seq<Entry<V>>)
    requires Sorted(a + [e] + c)
    ensures Below(a, e.key) && Above(c, e.key)
  {
    var s := a + [e] + c;
    assert s[|a|] == e;
    forall i | 0 <= i < |a|
      ensures a[i].key < e.key
    {
      assert a[i] == s[i];
    }
    forall i | 0 <= i < |c|
      ensures e.key < c[i].key
    {
      assert c[i] == s[|a| + 1 + i];
    }
  }

  /** Two sorted runs on either side of an entry make a sorted sequence. */
  lemma SortedJoin<V>(a: seq<Entry<V>>, e: Entry<V>, c: seq<Entry<V>>)
    requires Sorted(a) && Sorted(c) && Below(a, e.key) && Above(c, e.key)
    ensures Sorted(a + [e] + c)
  {
    var s := a + [e] + c;
    forall i, j | 0 <= i < j < |s|
      ensures s[i].key < s[j].key
    {
      if j < |a| {
        assert s[i] == a[i] && s[j] == a[j];
      } else if i > |a| {
        assert s[i] == c[i - |a| - 1] && s[j] == c[j - |a| - 1];
      } else if i == |a| {
        assert s[j] == c[j - |a| - 1];
      } else if j == |a| {
        assert s[i] == a[i];
      } else {
        assert s[i] == a[i] && s[j] == c[j - |a| - 1];
      }
    }
  }

  /** Dropping an entry from a sorted sequence keeps it sorted. */
  lemma SortedDrop<V>(a: seq<Entry<V>>, e: Entry<V>, c: seq<Entry<V>>)
    requires Sorted(a + [e] + c)
    ensures Sorted(a + c)
  {
    SortedPieces(a, [e], c);
    SortedMiddle(a, e, c);
    var s := a + c;
    forall i, j | 0 <= i < j < |s|
      ensures s[i].key < s[j].key
    {
      if j < |a| {
        assert s[i] == a[i] && s[j] == a[j];
      } else if i >= |a| {
        assert s[i] == c[i - |a|] && s[j] == c[j - |a|];
      } else {
        assert s[i] == a[i] && s[j] == c[j - |a|];
      }
    }
  }

  /** Along a search path for k, everything before the position has a
      smaller key than k. */
  lemma {:induction false} BeforeBelow<V>(path: seq<Frame<V>>, k: int)
    requires SearchPath(path, k) && Sorted(Before(path))
    ensures Below(Before(path), k)
    decreases |path|
  {
    if |path| > 0 {
      var p, f := path[..|path| - 1], path[|path| - 1];
      assert SearchPath(p, k) by {
        forall i | 0 <= i < |p|
          ensures if p[i].holeLeft then k < p[i].key else p[i].key < k
        {
          assert p[i] == path[i];
        }
      }
      var s := Before(path);
      if f.holeLeft {
        assert s == Before(p);
        BeforeBelow(p, k);
      } else {
        assert f.key < k;
        assert s[|s| - 1].key == f.key;
      }
    }
  }

  /** Along a search path for k, everything after the position has a larger
      key than k. */
  lemma {:induction false} AfterAbove<V>(path: seq<Frame<V>>, k: int)
    requires SearchPath(path, k) && Sorted(After(path))
    ensures Above(After(path), k)
    decreases |path|
  {
    if |path| > 0 {
      var p, f := path[..|path| - 1], path[|path| - 1];
      assert SearchPath(p, k) by {
        forall i | 0 <= i < |p|
          ensures if p[i].holeLeft then k < p[i].key else p[i].key < k
        {
          assert p[i] == path[i];
        }
      }
      var s := After(path);
      if f.holeLeft {
        assert k < f.key;
        assert s[0].key == f.key;
      } else {
        assert s == After(p);
        AfterAbove(p, k);
      }
    }
  }

  /** What find's walk tells about a sorted tree: the in-order sequence
      splits at the position, with smaller keys before and larger keys after. */
  lemma FindSplit<V>(path: seq<Frame<V>>, now: Tree<V>, k: int)
    requires SearchPath(path, k) && Sorted(InOrder(Plug(path, now)))
    ensures InOrder(Plug(path, now)) == Before(path) + InOrder(now) + After(path)
    ensures Sorted(Before(path)) && Sorted(InOrder(now)) && Sorted(After(path))
    ensures Below(Before(path), k) && Above(After(path), k)
  {
    PlugInOrder(path, now);
    SortedPieces(Before(path), InOrder(now), After(path));
    BeforeBelow(path, k);
    AfterAbove(path, k);
  }

  // ---------------------------------------------------------------------
  // Lookup by key

  /** The value the map holds for k: the last entry with that key. */
  ghost function Lookup<V>(s: seq<Entry<V>>, k: int): Option<V>
    decreases |s|
  {
    if |s| == 0 then None
    else if s[|s| - 1].key == k then Some(s[|s| - 1].val)
    else Lookup(s[..|s| - 1], k)
  }

  /** s1 is s0 with key k given the lookup result r and every other key unchanged. */
  ghost predicate Assigned<V>(s1: seq<Entry<V>>, s0: seq<Entry<V>>, k: int, r: Option<V>) {
    forall j :: Lookup(s1, j) == if j == k then r else Lookup(s0, j)
  }

  /** Lookup finds a key exactly when an entry has it, and then reports that
      entry's value. */
  lemma {:induction false} LookupMeaning<V>(s: seq<Entry<V>>, k: int)
    ensures Lookup(s, k).Some? <==> exists i :: 0 <= i < |s| && s[i].key == k
    ensures Lookup(s, k).Some? ==> Entry(k, Lookup(s, k).value) in s
    decreases |s|
  {
    if |s| > 0 {
      var p := s[..|s| - 1];
      LookupMeaning(p, k);
      if s[|s| - 1].key != k {
        if exists i :: 0 <= i < |s| && s[i].key == k {
          var i :| 0 <= i < |s| && s[i].key == k;
          assert p[i] == s[i];
        }
        if Lookup(p, k).Some? {
          var i :| 0 <= i < |p| && p[i] == Entry(k, Lookup(p, k).value);
          assert s[i] == p[i];
        }
      } else {
        assert s[|s| - 1] == Entry(k, Lookup(s, k).value);
      }
    }
  }

  lemma {:induction false} LookupAppend<V>(a: seq<Entry<V>>, b: seq<Entry<V>>, k: int)
    ensures Lookup(a + b, k) == if Lookup(b, k).Some? then Lookup(b, k) else Lookup(a, k)
    decreases |b|
  {
    if |b| == 0 {
      assert a + b == a;
    } else {
      assert (a + b)[..|a + b| - 1] == a + b[..|b| - 1];
      LookupAppend(a, b[..|b| - 1], k);
    }
  }

  lemma {:induction false} LookupAbsent<V>(s: seq<Entry<V>>, k: int)
    requires forall i :: 0 <= i < |s| ==> s[i].key != k
    ensures Lookup(s, k) == None
    decreases |s|
  {
    if |s| > 0 {
      LookupAbsent(s[..|s| - 1], k);
    }
  }

  /** Lookup around one entry whose key no later entry repeats. */
  lemma EntryLookup<V>(a: seq<Entry<V>>, e: Entry<V>, c: seq<Entry<V>>, j: int)
    requires Above(c, e.key)
    ensures Lookup(a + [e] + c, j) == if j == e.key then Some(e.val) else Lookup(a + c, j)
  {
    LookupAppend(a + [e], c, j);
    LookupAppend(a, [e], j);
    LookupAppend(a, c, j);
    if j == e.key {
      LookupAbsent(c, j);
    }
    assert Lookup([e], j) == if e.key == j then Some(e.val) else Lookup([e][..0], j);
  }

  /** A sorted sequence without its entry for k holds nothing for k. */
  lemma LookupGone<V>(a: seq<Entry<V>>, c: seq<Entry<V>>, k: int)
    requires Below(a, k) && Above(c, k)
    ensures Lookup(a + c, k) == None
  {
    LookupAppend(a, c, k);
    LookupAbsent(a, k);
    LookupAbsent(c, k);
  }

  // ---------------------------------------------------------------------
  // First and last entries

  function FirstOf<V>(s: seq<Entry<V>>): Option<Entry<V>> {
    if |s| == 0 then None else Some(s[0])
  }

  function LastOf<V>(s: seq<Entry<V>>): Option<Entry<V>> {
    if |s| == 0 then None else Some(s[|s| - 1])
  }

  /** Walking right from a node keeps the last entry of its subtree. */
  lemma LastOfNode<V>(t: Tree<V>)
    requires t.Node?
    ensures LastOf(InOrder(t)) == if t.right.Nil? then Some(Entry(t.key, t.val)) else LastOf(InOrder(t.right))
  {
    if t.right.Node? {
      assert |InOrder(t.right)| > 0;
    }
  }

  /** Walking left from a node keeps the first entry of its subtree. */
  lemma FirstOfNode<V>(t: Tree<V>)
    requires t.Node?
    ensures FirstOf(InOrder(t)) == if t.left.Nil? then Some(Entry(t.key, t.val)) else FirstOf(InOrder(t.left))
  {
    if t.left.Node? {
      assert |InOrder(t.left)| > 0;
    }
  }

  /** The last entry before a position is the parent's when the path
      leaves the parent to the right, and otherwise lies further up. */
  lemma LastOfBefore<V>(path: seq<Frame<V>>)
    requires |path| > 0
    ensures LastOf(Before(path)) == if path[|path| - 1].holeLeft then LastOf(Before(path[..|path| - 1]))
                                   else Some(Entry(path[|path| - 1].key, path[|path| - 1].val))
  {
    if path[|path| - 1].holeLeft {
      assert Before(path) == Before(path[..|path| - 1]) + [];
    }
  }

  /** The first entry after a position is the parent's when the path leaves
      the parent to the left, and otherwise lies further up. */
  lemma FirstOfAfter<V>(path: seq<Frame<V>>)
    requires |path| > 0
    ensures FirstOf(After(path)) == if !path[|path| - 1].holeLeft then FirstOf(After(path[..|path| - 1]))
                                    else Some(Entry(path[|path| - 1].key, path[|path| - 1].val))
  {
    if !path[|path| - 1].holeLeft {
      assert After(path) == [] + After(path[..|path| - 1]);
    }
  }

  // ---------------------------------------------------------------------
  // Heap order on priorities

  /** The priority of a subtree's root; a nil child never outranks anything. */
  function RootPri<V>(t: Tree<V>): nat {
    if t.Node? then t.pri else 0
  }

  /** Every node's priority is at least its children's. */
  ghost predicate Heap<V>(t: Tree<V>) {
    match t
    case Nil => true
    case Node(l, _, _, p, r) => RootPri(l) <= p && RootPri(r) <= p && Heap(l) && Heap(r)
  }

  /** The frames of a path are heap-ordered with each other and with their
      other children. */
  ghost predicate PathHeap<V>(path: seq<Frame<V>>) {
    && (forall i :: 0 <= i < |path| ==> Heap(path[i].other) && RootPri(path[i].other) <= path[i].pri)
    && (forall i, j :: 0 <= i < j < |path| ==> path[j].pri <= path[i].pri)
  }

  /** The priority of the node just above a position, or none at the root. */
  function ParentPri<V>(path: seq<Frame<V>>): Option<nat> {
    if |path| == 0 then None else Some(path[|path| - 1].pri)
  }

  predicate Under(p: Option<nat>, q: nat) {
    p.None? || q <= p.value
  }

  /** A heap seen from a position: the frames, the subtree and the edge
      between them are all in heap order. */
  lemma {:induction false} HeapUnplug<V>(path: seq<Frame<V>>, t: Tree<V>)
    requires Heap(Plug(path, t))
    ensures PathHeap(path) && Heap(t) && Under(ParentPri(path), RootPri(t))
    decreases |path|
  {
    if |path| > 0 {
      var p, f := path[..|path| - 1], path[|path| - 1];
      HeapUnplug(p, Attach(f, t));
      forall i, j | 0 <= i < j < |path|
        ensures path[j].pri <= path[i].pri
      {
        if j < |p| {
          assert path[i] == p[i] && path[j] == p[j];
        } else {
          assert path[i] == p[i];
          assert forall i' :: 0 <= i' < |p| ==> f.pri <= p[i'].pri by {
            forall i' | 0 <= i' < |p| ensures f.pri <= p[i'].pri {
              if i' < |p| - 1 {
                assert p[i'] == p[..|p| - 1][i'];
              }
            }
          }
        }
      }
      forall i | 0 <= i < |path|
        ensures Heap(path[i].other) && RootPri(path[i].other) <= path[i].pri
      {
        if i < |p| {
          assert path[i] == p[i];
        }
      }
    }
  }

  lemma PathHeapPrefix<V>(path: seq<Frame<V>>)
    requires PathHeap(path) && |path| > 0
    ensures PathHeap(path[..|path| - 1])
    ensures |path| > 1 ==> path[|path| - 1].pri <= path[|path| - 2].pri
  {
    var p := path[..|path| - 1];
    forall i | 0 <= i < |p|
      ensures Heap(p[i].other) && RootPri(p[i].other) <= p[i].pri
    {
      assert p[i] == path[i];
    }
    forall i, j | 0 <= i < j < |p|
      ensures p[j].pri <= p[i].pri
    {
      assert p[i] == path[i] && p[j] == path[j];
    }
  }

  /** A position in heap order plugs into a heap. */
  lemma {:induction false} HeapPlug<V>(path: seq<Frame<V>>, t: Tree<V>)
    requires PathHeap(path) && Heap(t) && Under(ParentPri(path), RootPri(t))
    ensures Heap(Plug(path, t))
    decreases |path|
  {
    if |path| > 0 {
      var p, f := path[..|path| - 1], path[|path| - 1];
      PathHeapPrefix(path);
      assert Heap(Attach(f, t));
      HeapPlug(p, Attach(f, t));
    }
  }

  // ---------------------------------------------------------------------
  // rotate

  /** rotate(p, c) with c at the position and p its parent: c moves above p,
      and the position moves up to c. */
  function Lift<V>(path: seq<Frame<V>>, c: Tree<V>): (z: (seq<Frame<V>>, Tree<V>))
    requires |path| > 0 && c.Node?
    ensures z.0 == path[..|path| - 1] && z.1.Node?
    ensures z.1.key == c.key && z.1.val == c.val && z.1.pri == c.pri
    ensures InOrder(z.1) == InOrder(Attach(path[|path| - 1], c))
  {
    var p := path[|path| - 1];
    if p.holeLeft then
      (path[..|path| - 1], Node(c.left, c.key, c.val, c.pri, Node(c.right, p.key, p.val, p.pri, p.other)))
    else
      (path[..|path| - 1], Node(Node(p.other, p.key, p.val, p.pri, c.left), c.key, c.val, c.pri, c.right))
  }

  /** rotate(now, child) with now at the position: the child on the chosen
      side moves above now, and the position stays with now, one level down. */
  function Sink<V>(path: seq<Frame<V>>, now: Tree<V>, toLeft: bool): (z: (seq<Frame<V>>, Tree<V>))
    requires now.Node? && (if toLeft then now.left.Node? else now.right.Node?)
    ensures |z.0| == |path| + 1 && z.0[..|path|] == path && z.1.Node?
    ensures z.1.key == now.key && z.1.val == now.val
    ensures InOrder(Attach(z.0[|path|], z.1)) == InOrder(now)
  {
    if toLeft then
      var c := now.left;
      (path + [Frame(false, c.key, c.val, c.pri, c.left)], Node(c.right, now.key, now.val, now.pri, now.right))
    else
      var c := now.right;
      (path + [Frame(true, c.key, c.val, c.pri, c.right)], Node(now.left, now.key, now.val, now.pri, c.left))
  }

  /** A Lift keeps the in-order sequence of the whole tree. */
  lemma LiftInOrder<V>(path: seq<Frame<V>>, c: Tree<V>)
    requires |path| > 0 && c.Node?
    ensures InOrder(Plug(Lift(path, c).0, Lift(path, c).1)) == InOrder(Plug(path, c))
  {
    var z := Lift(path, c);
    PlugSame(z.0, z.1, Attach(path[|path| - 1], c));
  }

  /** A Sink keeps the in-order sequence of the whole tree. */
  lemma SinkInOrder<V>(path: seq<Frame<V>>, now: Tree<V>, toLeft: bool)
    requires now.Node? && (if toLeft then now.left.Node? else now.right.Node?)
    ensures InOrder(Plug(Sink(path, now, toLeft).0, Sink(path, now, toLeft).1)) == InOrder(Plug(path, now))
  {
    var z := Sink(path, now, toLeft);
    assert z.0 == path + [z.0[|path|]];
    PushFrame(path, z.0[|path|], z.1);
    PlugSame(path, Attach(z.0[|path|], z.1), now);
  }

  /** Bubbling up: when the node at the position outranks its parent, the
      Lift keeps the path in heap order, the lifted subtree a heap, and the
      new parent above the lifted node's children. */
  lemma LiftHeap<V>(path: seq<Frame<V>>, c: Tree<V>)
    requires |path| > 0 && c.Node? && PathHeap(path) && Heap(c)
    requires path[|path| - 1].pri < c.pri
    requires RootPri(c.left) <= path[|path| - 1].pri && RootPri(c.right) <= path[|path| - 1].pri
    ensures PathHeap(Lift(path, c).0) && Heap(Lift(path, c).1)
    ensures Under(ParentPri(Lift(path, c).0), RootPri(Lift(path, c).1.left))
    ensures Under(ParentPri(Lift(path, c).0), RootPri(Lift(path, c).1.right))
  {
    PathHeapPrefix(path);
  }

  /** Rotating a node down towards its higher-priority child keeps the path
      in heap order and the new parent above the node's new children. */
  lemma SinkHeap<V>(path: seq<Frame<V>>, now: Tree<V>, toLeft: bool)
    requires now.Node? && (if toLeft then now.left.Node? else now.right.Node?)
    requires PathHeap(path) && Heap(now.left) && Heap(now.right)
    requires Under(ParentPri(path), RootPri(now.left)) && Under(ParentPri(path), RootPri(now.right))
    requires if toLeft then RootPri(now.right) <= RootPri(now.left) else RootPri(now.left) <= RootPri(now.right)
    ensures PathHeap(Sink(path, now, toLeft).0)
    ensures Heap(Sink(path, now, toLeft).1.left) && Heap(Sink(path, now, toLeft).1.right)
    ensures Under(ParentPri(Sink(path, now, toLeft).0), RootPri(Sink(path, now, toLeft).1.left))
    ensures Under(ParentPri(Sink(path, now, toLeft).0), RootPri(Sink(path, now, toLeft).1.right))
  {
    var z := Sink(path, now, toLeft);
    assert z.0 == path + [z.0[|path|]];
    PathHeapPush(path, z.0[|path|]);
  }

  /** Pushing a frame that sits under the path's last frame keeps the path
      in heap order. */
  lemma PathHeapPush<V>(path: seq<Frame<V>>, f: Frame<V>)
    requires PathHeap(path) && Heap(f.other) && RootPri(f.other) <= f.pri
    requires Under(ParentPri(path), f.pri)
    ensures PathHeap(path + [f])
  {
    var q := path + [f];
    forall i | 0 <= i < |q|
      ensures Heap(q[i].other) && RootPri(q[i].other) <= q[i].pri
    {
      if i < |path| {
        assert q[i] == path[i];
      }
    }
    forall i, j | 0 <= i < j < |q|
      ensures q[j].pri <= q[i].pri
    {
      assert q[i] == path[i];
      if j < |path| {
        assert q[j] == path[j];
      } else if i < |path| - 1 {
        assert path[|path| - 1].pri <= path[i].pri;
      }
    }
  }
}
