/** The binary search tree of adt.c: insertion through a pointer to the link to
    change, lookup, in-order visit and height, over nodes on the heap. */
module SearchTree {

  class TreeNode {
    const key: int
    var left: TreeNode?
    var right: TreeNode?

    constructor (key: int)
      ensures this.key == key && left == null && right == null
    {
      this.key, left, right := key, null, null;
    }
  }

  datatype Links = Links(left: TreeNode?, right: TreeNode?)

  type Heap = map<TreeNode, Links>

  /** The shape of a tree, with the node at each place. */
  datatype Tree = Leaf | Node(node: TreeNode, left: Tree, right: Tree)

  /** The tree that hangs below a link has this shape in this heap. */
  ghost predicate Rep(link: TreeNode?, t: Tree, heap: Heap) {
    match t
    case Leaf => link == null
    case Node(x, l, r) => link == x && x in heap && Rep(heap[x].left, l, heap) && Rep(heap[x].right, r, heap)
  }

  function Keys(t: Tree): set<int> {
    match t
    case Leaf => {}
    case Node(x, l, r) => Keys(l) + {x.key} + Keys(r)
  }

  ghost function Nodes(t: Tree): set<TreeNode> {
    match t
    case Leaf => {}
    case Node(x, l, r) => Nodes(l) + {x} + Nodes(r)
  }

  function Inorder(t: Tree): seq<int> {
    match t
    case Leaf => []
    case Node(x, l, r) => Inorder(l) + [x.key] + Inorder(r)
  }

  function Height(t: Tree): nat {
    match t
    case Leaf => 0
    case Node(x, l, r) => 1 + if Height(l) > Height(r) then Height(l) else Height(r)
  }

  /** The way down from the root, left for true, ends on a node. */
  predicate Reaches(t: Tree, path: seq<bool>) {
    t.Node? && (path == [] || Reaches(if path[0] then t.left else t.right, path[1..]))
  }

  lemma {:induction false} NoPathIsLonger(t: Tree, path: seq<bool>)
    requires Reaches(t, path)
    ensures |path| + 1 <= Height(t)
    decreases |path|
  {
    if path != [] { NoPathIsLonger(if path[0] then t.left else t.right, path[1..]); }
  }

  /** The height is the number of nodes on the longest way down. */
  lemma {:induction false} HeightIsLongest(t: Tree)
    ensures forall path :: Reaches(t, path) ==> |path| + 1 <= Height(t)
    ensures t.Node? ==> exists path :: Reaches(t, path) && |path| + 1 == Height(t)
    ensures t.Leaf? ==> Height(t) == 0
  {
    forall path | Reaches(t, path) ensures |path| + 1 <= Height(t) { NoPathIsLonger(t, path); }
    match t
    case Leaf =>
    case Node(x, l, r) =>
      var left := Height(l) > Height(r);
      var below := if left then l else r;
      HeightIsLongest(below);
      if below.Node? {
        var path :| Reaches(below, path) && |path| + 1 == Height(below);
        assert ([left] + path)[1..] == path;
        assert Reaches(t, [left] + path);
      } else {
        assert Reaches(t, []);
      }
  }

  /** The search property: hence no node occurs twice. */
  predicate Ordered(t: Tree) {
    match t
    case Leaf => true
    case Node(x, l, r) =>
      && Ordered(l) && Ordered(r)
      && (forall k :: k in Keys(l) ==> k < x.key)
      && (forall k :: k in Keys(r) ==> x.key < k)
  }

  /** The tree with a new node where the search for its key ends. */
  function Insert(t: Tree, e: TreeNode): Tree {
    match t
    case Leaf => Node(e, Leaf, Leaf)
    case Node(x, l, r) =>
      if e.key < x.key then Node(x, Insert(l, e), r)
      else if e.key > x.key then Node(x, l, Insert(r, e))
      else t
  }

  /** The last node on the search path of a key. */
  function Last(t: Tree, key: int, above: TreeNode?): TreeNode? {
    match t
    case Leaf => above
    case Node(x, l, r) =>
      if key < x.key then Last(l, key, x) else if key > x.key then Last(r, key, x) else x
  }

  // ---------- insertion ----------

  lemma {:induction false} NodeKeys(t: Tree)
    ensures forall x :: x in Nodes(t) ==> x.key in Keys(t)
  {
    match t
    case Leaf =>
    case Node(x, l, r) => NodeKeys(l); NodeKeys(r);
  }

  lemma {:induction false} SameTree(link: TreeNode?, t: Tree, heap: Heap, heap': Heap)
    requires Rep(link, t, heap)
    requires forall x :: x in Nodes(t) && x in heap ==> x in heap' && heap'[x] == heap[x]
    ensures Rep(link, t, heap')
  {
    match t
    case Leaf =>
    case Node(x, l, r) =>
      SameTree(heap[x].left, l, heap, heap');
      SameTree(heap[x].right, r, heap, heap');
  }

  lemma {:induction false} LastOnPath(t: Tree, key: int, above: TreeNode?)
    ensures t.Leaf? ==> Last(t, key, above) == above
    ensures t.Node? ==> Last(t, key, above) != null && Last(t, key, above) in Nodes(t)
  {
    match t
    case Leaf =>
    case Node(x, l, r) => LastOnPath(l, key, x); LastOnPath(r, key, x);
  }

  /** The heap after the new node is hung below the last node of the search path. */
  ghost function Hung(heap: Heap, p: TreeNode?, e: TreeNode): Heap
    requires p != null ==> p in heap
  {
    var grown := heap[e := Links(null, null)];
    if p == null then grown
    else grown[p := if e.key < p.key then heap[p].(left := e) else heap[p].(right := e)]
  }

  /** Changing that one link inserts the node, and changes no other subtree. */
  lemma {:induction false} HungIsInserted(link: TreeNode?, t: Tree, heap: Heap, above: TreeNode?, e: TreeNode)
    requires Rep(link, t, heap) && Ordered(t) && e.key !in Keys(t) && e !in heap
    requires above != null ==> above in heap && above !in Nodes(t)
    ensures var p := Last(t, e.key, above);
            && (p != null ==> p in heap)
            && Rep(if t.Leaf? then e else link, Insert(t, e), Hung(heap, p, e))
  {
    var p := Last(t, e.key, above);
    LastOnPath(t, e.key, above);
    match t
    case Leaf =>
    case Node(x, l, r) =>
      NodeKeys(l); NodeKeys(r);
      RepNodes(heap[x].left, l, heap); RepNodes(heap[x].right, r, heap);
      if e.key < x.key {
        LastOnPath(l, e.key, x);
        HungIsInserted(heap[x].left, l, heap, x, e);
        SameTree(heap[x].right, r, heap, Hung(heap, p, e));
      } else {
        LastOnPath(r, e.key, x);
        HungIsInserted(heap[x].right, r, heap, x, e);
        SameTree(heap[x].left, l, heap, Hung(heap, p, e));
      }
  }

  lemma {:induction false} RepNodes(link: TreeNode?, t: Tree, heap: Heap)
    requires Rep(link, t, heap)
    ensures forall x :: x in Nodes(t) ==> x in heap
  {
    match t
    case Leaf =>
    case Node(x, l, r) => RepNodes(heap[x].left, l, heap); RepNodes(heap[x].right, r, heap);
  }

  /** Insertion adds exactly the new key and keeps the tree ordered. */
  lemma {:induction false} InsertAddsKey(t: Tree, e: TreeNode)
    requires Ordered(t)
    ensures Ordered(Insert(t, e))
    ensures Keys(Insert(t, e)) == Keys(t) + {e.key}
    ensures e.key in Keys(t) ==> Insert(t, e) == t
  {
    match t
    case Leaf =>
    case Node(x, l, r) => InsertAddsKey(l, e); InsertAddsKey(r, e);
  }

  predicate Sorted(s: seq<int>) { forall i, j :: 0 <= i < j < |s| ==> s[i] < s[j] }

  lemma SortedAround(a: seq<int>, k: int, b: seq<int>)
    requires Sorted(a) && Sorted(b)
    requires (forall x :: x in a ==> x < k) && (forall x :: x in b ==> k < x)
    ensures Sorted(a + [k] + b)
  {
    var s := a + [k] + b;
    forall i | 0 <= i < |s| ensures if i < |a| then s[i] == a[i] && s[i] < k else if i == |a| then s[i] == k
                                    else s[i] == b[i - |a| - 1] && k < s[i]
    {
      if i < |a| { assert a[i] in a; }
      if i > |a| { assert b[i - |a| - 1] in b; }
    }
  }

  lemma SizeAround(a: set<int>, k: int, b: set<int>)
    requires (forall x :: x in a ==> x < k) && (forall x :: x in b ==> k < x)
    ensures |a + {k} + b| == |a| + 1 + |b|
  {
    assert forall x :: x in a + {k} ==> x <= k;
    assert (a + {k}) !! b;
  }

  /** The in-order visit sees the keys in strictly increasing order, each once. */
  lemma {:induction false} InorderSorted(t: Tree)
    requires Ordered(t)
    ensures Sorted(Inorder(t))
    ensures forall k :: k in Inorder(t) <==> k in Keys(t)
    ensures |Inorder(t)| == |Keys(t)|
  {
    match t
    case Leaf =>
    case Node(x, l, r) =>
      InorderSorted(l);
      InorderSorted(r);
      SortedAround(Inorder(l), x.key, Inorder(r));
      SizeAround(Keys(l), x.key, Keys(r));
  }

  // ---------- the degenerate case ----------

  function InsertAll(nodes: seq<TreeNode>): Tree {
    if nodes == [] then Leaf else Insert(InsertAll(nodes[..|nodes| - 1]), nodes[|nodes| - 1])
  }

  predicate Increasing(nodes: seq<TreeNode>) {
    forall i, j :: 0 <= i < j < |nodes| ==> nodes[i].key < nodes[j].key
  }

  /** A tree that is a single path to the right. */
  predicate RightPath(t: Tree) { t.Node? ==> t.left.Leaf? && RightPath(t.right) }

  lemma {:induction false} InsertLargest(t: Tree, e: TreeNode)
    requires RightPath(t) && forall k :: k in Keys(t) ==> k < e.key
    ensures RightPath(Insert(t, e)) && Height(Insert(t, e)) == Height(t) + 1
  {
    match t
    case Leaf =>
    case Node(x, l, r) =>
      assert x.key in Keys(t);
      InsertLargest(r, e);
  }

  lemma {:induction false} InsertAllKeys(nodes: seq<TreeNode>)
    ensures Ordered(InsertAll(nodes))
    ensures forall k :: k in Keys(InsertAll(nodes)) <==> exists i :: 0 <= i < |nodes| && nodes[i].key == k
    decreases |nodes|
  {
    if nodes != [] {
      var n := |nodes| - 1;
      InsertAllKeys(nodes[..n]);
      InsertAddsKey(InsertAll(nodes[..n]), nodes[n]);
      forall k | k in Keys(InsertAll(nodes[..n])) ensures exists i :: 0 <= i < |nodes| && nodes[i].key == k {
        var i :| 0 <= i < n && nodes[..n][i].key == k;
        assert nodes[i].key == k;
      }
      forall i | 0 <= i < n ensures nodes[i].key in Keys(InsertAll(nodes[..n])) {
        assert nodes[..n][i].key == nodes[i].key;
      }
    }
  }

  /** Inserting n keys in increasing order gives a tree of height n. */
  lemma {:induction false} SortedInsertionIsAList(nodes: seq<TreeNode>)
    requires Increasing(nodes)
    ensures RightPath(InsertAll(nodes)) && Height(InsertAll(nodes)) == |nodes|
    decreases |nodes|
  {
    if nodes != [] {
      var n := |nodes| - 1;
      SortedInsertionIsAList(nodes[..n]);
      InsertAllKeys(nodes[..n]);
      InsertLargest(InsertAll(nodes[..n]), nodes[n]);
    }
  }

  /** Insertions that all can allocate, of increasing keys. */
  predicate Growing(keys: seq<(int, bool)>) {
    && (forall i :: 0 <= i < |keys| ==> keys[i].1)
    && (forall i, j :: 0 <= i < j < |keys| ==> keys[i].0 < keys[j].0)
  }

  /** The tree holds the keys of those insertions that could allocate; and is a path if
      all could and the keys increase. */
  ghost predicate Grown(t: Tree, keys: seq<(int, bool)>) {
    && (forall k :: k in Keys(t) <==> (k, true) in keys)
    && (Growing(keys) ==> RightPath(t) && Height(t) == |keys|)
  }

  /** The first insertion of its key that could allocate. */
  predicate FirstOfItsKey(keys: seq<(int, bool)>, i: nat)
    requires i < |keys|
  {
    keys[i].1 && keys[i] !in keys[..i]
  }

  /** What a run reported for the first keys. */
  predicate Reported(inserted: seq<bool>, keys: seq<(int, bool)>) {
    && |inserted| <= |keys|
    && forall i :: 0 <= i < |inserted| ==> inserted[i] == FirstOfItsKey(keys, i)
  }

  lemma ReportedOneMore(inserted: seq<bool>, keys: seq<(int, bool)>, ok: bool)
    requires Reported(inserted, keys) && |inserted| < |keys| && ok == FirstOfItsKey(keys, |inserted|)
    ensures Reported(inserted + [ok], keys)
  {
  }

  lemma GrownKeys(t: Tree, after: Tree, keys: seq<(int, bool)>, key: (int, bool))
    requires forall k :: k in Keys(t) <==> (k, true) in keys
    requires Keys(after) == Keys(t) + if key.1 then {key.0} else {}
    ensures forall k :: k in Keys(after) <==> (k, true) in keys + [key]
  {
    forall k ensures (k, true) in keys + [key] <==> (k, true) in keys || (k, true) == key {}
  }

  lemma NewKey(t: Tree, keys: seq<(int, bool)>, key: (int, bool))
    requires Grown(t, keys) && Growing(keys + [key])
    ensures key.1 && key.0 !in Keys(t)
  {
    var all := keys + [key];
    assert all[|keys|] == key && key == (key.0, true);
    assert forall j :: 0 <= j < |keys| ==> keys[j] == all[j] && all[j].0 < key.0;
  }

  lemma GrownPath(t: Tree, keys: seq<(int, bool)>, e: TreeNode)
    requires Grown(t, keys) && Growing(keys + [(e.key, true)])
    ensures RightPath(Insert(t, e)) && Height(Insert(t, e)) == |keys| + 1
  {
    var all := keys + [(e.key, true)];
    assert all[|keys|] == (e.key, true);
    assert forall j :: 0 <= j < |keys| ==> all[j] == keys[j];
    forall k | k in Keys(t) ensures k < e.key {
      var j :| 0 <= j < |keys| && keys[j] == (k, true);
      assert all[j].0 < all[|keys|].0;
    }
    InsertLargest(t, e);
  }

  // ---------- the tree on the heap ----------

  class Root {
    var root: TreeNode?
    ghost var shape: Tree
    ghost var heap: Heap

    /** The objects are as the snapshot has them. */
    ghost predicate Agreement()
      reads this`heap, heap.Keys
    {
      forall x :: x in heap ==> heap[x] == Links(x.left, x.right)
    }

    ghost predicate Valid()
      reads this, heap.Keys
    {
      Rep(root, shape, heap) && Ordered(shape) && Agreement()
    }

    constructor ()
      ensures Valid() && shape == Leaf && heap == map[]
    {
      root, shape, heap := null, Leaf, map[];
    }

    /** tree_insert. The program's `link` is the root while prev is null, and the field
        of prev on the side of the key after that. */
    method TreeInsert(key: int, canAllocate: bool) returns (inserted: bool)
      requires Valid()
      modifies this, heap.Keys
      ensures Valid() && fresh(heap.Keys - old(heap.Keys))
      ensures inserted == (canAllocate && key !in old(Keys(shape)))
      ensures Keys(shape) == old(Keys(shape)) + if inserted then {key} else {}
      ensures if inserted then exists e: TreeNode :: fresh(e) && e.key == key && shape == Insert(old(shape), e)
              else shape == old(shape)
    {
      var prev: TreeNode?, cur := null, root;
      ghost var sub := shape;
      while cur != null
        invariant Rep(cur, sub, heap) && Ordered(sub)
        invariant key in Keys(shape) <==> key in Keys(sub)
        invariant Last(shape, key, null) == Last(sub, key, prev)
        decreases sub
      {
        if key < cur.key {
          prev, cur, sub := cur, cur.left, sub.left;
        } else if key > cur.key {
          prev, cur, sub := cur, cur.right, sub.right;
        } else {
          return false;
        }
      }
      if !canAllocate { return false; }
      var e := new TreeNode(key);
      HungIsInserted(root, shape, heap, null, e);
      InsertAddsKey(shape, e);
      LastOnPath(shape, key, null);
      Hang(prev, e);
      shape := Insert(shape, e);
      return true;
    }

    /** One insertion of a run. */
    method InsertNext(keys: seq<(int, bool)>, i: nat) returns (inserted: bool)
      requires i < |keys| && Valid() && Grown(shape, keys[..i])
      modifies this, heap.Keys
      ensures Valid() && fresh(heap.Keys - old(heap.Keys))
      ensures Grown(shape, keys[..i + 1]) && inserted == FirstOfItsKey(keys, i)
    {
      ghost var before, past, key := shape, keys[..i], keys[i];
      assert keys[..i + 1] == past + [key];
      inserted := TreeInsert(keys[i].0, keys[i].1);
      GrownKeys(before, shape, past, key);
      if Growing(past + [key]) {
        NewKey(before, past, key);
        var e: TreeNode :| e.key == key.0 && shape == Insert(before, e);
        GrownPath(before, past, e);
      }
    }

    /** Any run of insertions on an empty tree, allocations failing anywhere: the tree is
        ordered and holds exactly the keys of those that could allocate, each is reported
        as inserted once, and if all could and the keys increase the tree is a path. */
    method InsertMany(keys: seq<(int, bool)>) returns (inserted: seq<bool>)
      requires Valid() && shape == Leaf
      modifies this, heap.Keys
      ensures Valid() && Grown(shape, keys) && |inserted| == |keys| && Reported(inserted, keys)
    {
      inserted := [];
      for i := 0 to |keys|
        invariant Valid() && fresh(heap.Keys - old(heap.Keys)) && |inserted| == i
        invariant Grown(shape, keys[..i]) && Reported(inserted, keys)
      {
        var ok := InsertNext(keys, i);
        ReportedOneMore(inserted, keys, ok);
        inserted := inserted + [ok];
      }
      assert keys[..|keys|] == keys;
    }

    /** The assignment through `link`. */
    method Hang(prev: TreeNode?, e: TreeNode)
      requires Agreement() && e !in heap && e.left == null && e.right == null
      requires prev != null ==> prev in heap
      modifies this`root, this`heap, prev
      ensures Agreement() && heap == Hung(old(heap), prev, e)
      ensures root == if prev == null then e else old(root)
    {
      heap := Hung(heap, prev, e);
      if prev == null {
        root := e;
      } else if e.key < prev.key {
        prev.left := e;
      } else {
        prev.right := e;
      }
    }

    /** tree_contains: at most as many comparisons as the tree is high. */
    method TreeContains(key: int, steps: nat) returns (found: bool, steps': nat)
      requires Valid()
      ensures found == (key in Keys(shape))
      ensures steps <= steps' <= steps + Height(shape)
    {
      var n := root;
      ghost var sub := shape;
      steps' := steps;
      while n != null
        invariant Rep(n, sub, heap) && Ordered(sub)
        invariant key in Keys(shape) <==> key in Keys(sub)
        invariant steps <= steps' && steps' + Height(sub) <= steps + Height(shape)
        decreases sub
      {
        steps' := steps' + 1;
        if key < n.key {
          n, sub := n.left, sub.left;
        } else if key > n.key {
          n, sub := n.right, sub.right;
        } else {
          return true, steps';
        }
      }
      return false, steps';
    }

    /** tree_inorder: the visitor is applied to the keys of the in-order sequence. */
    method TreeInorder<C>(n: TreeNode?, ghost t: Tree, visit: (int, C) -> C, ctx: C) returns (ctx': C)
      requires Agreement() && Rep(n, t, heap)
      ensures ctx' == Visited(visit, Inorder(t), ctx)
      decreases t
    {
      if n == null { return ctx; }
      ctx' := TreeInorder(n.left, t.left, visit, ctx);
      ctx' := visit(n.key, ctx');
      VisitedAppend(visit, Inorder(t.left), n.key, ctx);
      ctx' := TreeInorder(n.right, t.right, visit, ctx');
      VisitedConcat(visit, Inorder(t.left) + [n.key], Inorder(t.right), ctx);
    }

    /** tree_height */
    method TreeHeight(n: TreeNode?, ghost t: Tree) returns (h: nat)
      requires Agreement() && Rep(n, t, heap)
      ensures h == Height(t)
      decreases t
    {
      if n == null { return 0; }
      var l := TreeHeight(n.left, t.left);
      var r := TreeHeight(n.right, t.right);
      return 1 + if l > r then l else r;
    }
  }

  /** A visitor applied to the keys of a sequence, first to last. */
  function Visited<C>(visit: (int, C) -> C, keys: seq<int>, ctx: C): C {
    if keys == [] then ctx else Visited(visit, keys[1..], visit(keys[0], ctx))
  }

  lemma {:induction false} VisitedConcat<C>(visit: (int, C) -> C, a: seq<int>, b: seq<int>, ctx: C)
    ensures Visited(visit, a + b, ctx) == Visited(visit, b, Visited(visit, a, ctx))
    decreases |a|
  {
    if a == [] {
      assert a + b == b;
    } else {
      assert (a + b)[1..] == a[1..] + b;
      VisitedConcat(visit, a[1..], b, visit(a[0], ctx));
    }
  }

  lemma VisitedAppend<C>(visit: (int, C) -> C, a: seq<int>, k: int, ctx: C)
    ensures Visited(visit, a + [k], ctx) == visit(k, Visited(visit, a, ctx))
  {
    VisitedConcat(visit, a, [k], ctx);
    assert [k][1..] == [];
  }

  /** The counting visitor counts the keys. */
  lemma {:induction false} CountingVisitor(t: Tree, start: int)
    requires Ordered(t)
    ensures Visited((_: int, n: int) => n + 1, Inorder(t), start) == start + |Keys(t)|
  {
    InorderSorted(t);
    CountVisited(Inorder(t), start);
  }

  lemma {:induction false} CountVisited(keys: seq<int>, start: int)
    ensures Visited((_: int, n: int) => n + 1, keys, start) == start + |keys|
    decreases |keys|
  {
    if keys != [] { CountVisited(keys[1..], start + 1); }
  }
}
