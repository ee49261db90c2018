/** Value-level model of the binary search tree: the abstract tree, the
  * recursive read-only queries of BinarySearchTree, and the specifications
  * that the in-place insert and remove are proved against. */
module BstModel {

  datatype Option<T> = None | Some(value: T)

  /** A tree of integer keys. `Leaf` is the absent child (`null`). */
  datatype Tree = Leaf | Node(left: Tree, val: int, right: Tree)

  function Size(t: Tree): nat
  {
    match t
    case Leaf => 0
    case Node(l, _, r) => Size(l) + 1 + Size(r)
  }

  function Keys(t: Tree): multiset<int>
  {
    match t
    case Leaf => multiset{}
    case Node(l, v, r) => Keys(l) + multiset{v} + Keys(r)
  }

  function Max(a: int, b: int): int { if a < b then b else a }

  /** Number of nodes on the longest root-to-leaf path. */
  function Height(t: Tree): nat
  {
    match t
    case Leaf => 0
    case Node(l, _, r) => 1 + Max(Height(l), Height(r))
  }

  /** Every key of `t` is smaller than `v`. */
  predicate AllBelow(t: Tree, v: int)
  {
    match t
    case Leaf => true
    case Node(l, k, r) => k < v && AllBelow(l, v) && AllBelow(r, v)
  }

  /** Every key of `t` is at least `v`. */
  predicate AllAtLeast(t: Tree, v: int)
  {
    match t
    case Leaf => true
    case Node(l, k, r) => v <= k && AllAtLeast(l, v) && AllAtLeast(r, v)
  }

  /** The order invariant: keys left of a node are smaller than its key, keys
    * right of it are greater or equal (equal keys are routed right). */
  predicate IsBst(t: Tree)
  {
    match t
    case Leaf => true
    case Node(l, v, r) => AllBelow(l, v) && AllAtLeast(r, v) && IsBst(l) && IsBst(r)
  }

  /** The bound predicates say what they say about the key multiset. */
  lemma {:induction false} AllBelowKeys(t: Tree, v: int)
    ensures AllBelow(t, v) <==> forall k :: k in Keys(t) ==> k < v
  {
    match t
    case Leaf =>
    case Node(l, k, r) =>
      AllBelowKeys(l, v);
      AllBelowKeys(r, v);
      assert k in Keys(t);
      assert forall j :: j in Keys(t) <==> j in Keys(l) || j == k || j in Keys(r);
  }

  lemma {:induction false} AllAtLeastKeys(t: Tree, v: int)
    ensures AllAtLeast(t, v) <==> forall k :: k in Keys(t) ==> v <= k
  {
    match t
    case Leaf =>
    case Node(l, k, r) =>
      AllAtLeastKeys(l, v);
      AllAtLeastKeys(r, v);
      assert k in Keys(t);
      assert forall j :: j in Keys(t) <==> j in Keys(l) || j == k || j in Keys(r);
  }

  predicate Sorted(s: seq<int>)
  {
    forall i, j :: 0 <= i < j < |s| ==> s[i] <= s[j]
  }

  lemma {:induction false} KeysSize(t: Tree)
    ensures |Keys(t)| == Size(t)
    ensures Size(t) == 0 <==> t == Leaf
  {
    match t
    case Leaf =>
    case Node(l, _, r) =>
      KeysSize(l);
      KeysSize(r);
  }

  // ---------------------------------------------------------------------
  // Insertion

  /** Insertion: strictly smaller keys descend left, equal or greater ones
    * right, and the new key becomes a leaf in the empty slot reached. */
  function TreeInsert(t: Tree, x: int): (r: Tree)
    ensures r.Node?
  {
    match t
    case Leaf => Node(Leaf, x, Leaf)
    case Node(l, v, rt) =>
      if x < v then Node(TreeInsert(l, x), v, rt) else Node(l, v, TreeInsert(rt, x))
  }

  /** Insertion adds exactly one occurrence of the key. */
  lemma {:induction false} InsertKeys(t: Tree, x: int)
    ensures Keys(TreeInsert(t, x)) == Keys(t) + multiset{x}
    ensures Size(TreeInsert(t, x)) == Size(t) + 1
  {
    match t
    case Leaf =>
    case Node(l, v, rt) =>
      if x < v {
        InsertKeys(l, x);
        assert TreeInsert(t, x) == Node(TreeInsert(l, x), v, rt);
      } else {
        InsertKeys(rt, x);
        assert TreeInsert(t, x) == Node(l, v, TreeInsert(rt, x));
      }
  }

  /** Insertion never shortens the tree and lengthens it by at most one
    * level, the new leaf's. */
  lemma {:induction false} InsertHeight(t: Tree, x: int)
    ensures Height(t) <= Height(TreeInsert(t, x)) <= Height(t) + 1
  {
    match t
    case Leaf =>
    case Node(l, v, rt) =>
      if x < v { InsertHeight(l, x); } else { InsertHeight(rt, x); }
  }

  lemma {:induction false} InsertBelow(t: Tree, x: int, v: int)
    requires AllBelow(t, v) && x < v
    ensures AllBelow(TreeInsert(t, x), v)
  {
    match t
    case Leaf =>
    case Node(l, k, r) =>
      if x < k { InsertBelow(l, x, v); } else { InsertBelow(r, x, v); }
  }

  lemma {:induction false} InsertAtLeast(t: Tree, x: int, v: int)
    requires AllAtLeast(t, v) && v <= x
    ensures AllAtLeast(TreeInsert(t, x), v)
  {
    match t
    case Leaf =>
    case Node(l, k, r) =>
      if x < k { InsertAtLeast(l, x, v); } else { InsertAtLeast(r, x, v); }
  }

  /** Insertion keeps the order invariant. */
  lemma {:induction false} InsertKeepsBst(t: Tree, x: int)
    requires IsBst(t)
    ensures IsBst(TreeInsert(t, x))
  {
    match t
    case Leaf =>
    case Node(l, v, r) =>
      if x < v {
        InsertKeepsBst(l, x);
        InsertBelow(l, x, v);
      } else {
        InsertKeepsBst(r, x);
        InsertAtLeast(r, x, v);
      }
  }

  /** Inserting the keys of `xs` one after the other, as a caller building a
    * tree does. */
  function InsertAll(t: Tree, xs: seq<int>): Tree
    decreases |xs|
  {
    if xs == [] then t else InsertAll(TreeInsert(t, xs[0]), xs[1..])
  }

  /** A chain of insertions adds exactly the inserted keys. */
  lemma {:induction false} InsertAllKeys(t: Tree, xs: seq<int>)
    ensures Keys(InsertAll(t, xs)) == Keys(t) + multiset(xs)
    decreases |xs|
  {
    if xs != [] {
      var t' := TreeInsert(t, xs[0]);
      assert Keys(t') == Keys(t) + multiset{xs[0]} by { InsertKeys(t, xs[0]); }
      InsertAllKeys(t', xs[1..]);
      MultisetCons(xs);
    }
  }

  lemma AppendAssoc<T>(a: seq<T>, b: seq<T>, c: seq<T>)
    ensures (a + b) + c == a + (b + c)
  {
  }

  lemma MultisetCons(xs: seq<int>)
    requires xs != []
    ensures multiset(xs) == multiset{xs[0]} + multiset(xs[1..])
  {
    assert xs == [xs[0]] + xs[1..];
  }

  lemma {:induction false} InsertAllKeepsBst(t: Tree, xs: seq<int>)
    requires IsBst(t)
    ensures IsBst(InsertAll(t, xs))
    decreases |xs|
  {
    if xs != [] {
      InsertKeepsBst(t, xs[0]);
      InsertAllKeepsBst(TreeInsert(t, xs[0]), xs[1..]);
    }
  }

  // ---------------------------------------------------------------------
  // Search

  /** findRecursively: follow the search path and stop at the first node whose
    * key equals `x`; the result is the subtree rooted at that node. */
  function FindRecursively(t: Tree, x: int): (r: Option<Tree>)
    ensures r.Some? ==> r.value.Node? && r.value.val == x
  {
    match t
    case Leaf => None
    case Node(l, v, rt) =>
      if x > v then FindRecursively(rt, x)
      else if x < v then FindRecursively(l, x)
      else Some(t)
  }

  /** What the search finds is a key of the tree. */
  lemma {:induction false} FindRecursivelySound(t: Tree, x: int)
    requires FindRecursively(t, x).Some?
    ensures x in Keys(t)
  {
    var Node(l, v, r) := t;
    if x > v {
      FindRecursivelySound(r, x);
    } else if x < v {
      FindRecursivelySound(l, x);
    }
  }

  /** On a search tree the search path finds `x` exactly when `x` is a key. */
  lemma {:induction false} FindRecursivelyComplete(t: Tree, x: int)
    requires IsBst(t)
    ensures FindRecursively(t, x).Some? <==> x in Keys(t)
  {
    match t
    case Leaf =>
    case Node(l, v, r) =>
      if FindRecursively(t, x).Some? {
        FindRecursivelySound(t, x);
      } else if x > v {
        FindRecursivelyComplete(r, x);
        AllBelowKeys(l, v);
        assert x !in Keys(l);
      } else if x < v {
        FindRecursivelyComplete(l, x);
        AllAtLeastKeys(r, v);
        assert x !in Keys(r);
      }
  }

  // ---------------------------------------------------------------------
  // Depth-first traversals

  function DfsPreOrder(t: Tree): (r: seq<int>)
    ensures |r| == Size(t)
  {
    match t
    case Leaf => []
    case Node(l, v, rt) => [v] + DfsPreOrder(l) + DfsPreOrder(rt)
  }

  function DfsInOrder(t: Tree): (r: seq<int>)
    ensures |r| == Size(t)
  {
    match t
    case Leaf => []
    case Node(l, v, rt) => DfsInOrder(l) + [v] + DfsInOrder(rt)
  }

  function DfsPostOrder(t: Tree): (r: seq<int>)
    ensures |r| == Size(t)
  {
    match t
    case Leaf => []
    case Node(l, v, rt) => DfsPostOrder(l) + DfsPostOrder(rt) + [v]
  }

  lemma {:induction false} PreOrderKeys(t: Tree)
    ensures multiset(DfsPreOrder(t)) == Keys(t)
  {
    match t
    case Leaf =>
    case Node(l, v, r) =>
      PreOrderKeys(l);
      PreOrderKeys(r);
      assert DfsPreOrder(t) == [v] + DfsPreOrder(l) + DfsPreOrder(r);
  }

  lemma {:induction false} InOrderKeys(t: Tree)
    ensures multiset(DfsInOrder(t)) == Keys(t)
  {
    match t
    case Leaf =>
    case Node(l, v, r) =>
      InOrderKeys(l);
      InOrderKeys(r);
      assert DfsInOrder(t) == DfsInOrder(l) + [v] + DfsInOrder(r);
  }

  lemma {:induction false} PostOrderKeys(t: Tree)
    ensures multiset(DfsPostOrder(t)) == Keys(t)
  {
    match t
    case Leaf =>
    case Node(l, v, r) =>
      PostOrderKeys(l);
      PostOrderKeys(r);
      assert DfsPostOrder(t) == DfsPostOrder(l) + DfsPostOrder(r) + [v];
  }

  /** The three depth-first orders list every key once: they hold the same
    * multiset of keys, and an empty tree yields none. */
  lemma DfsSameKeys(t: Tree)
    ensures multiset(DfsPreOrder(t)) == multiset(DfsInOrder(t)) == multiset(DfsPostOrder(t)) == Keys(t)
    ensures t == Leaf ==> DfsPreOrder(t) == DfsInOrder(t) == DfsPostOrder(t) == []
  {
    PreOrderKeys(t);
    InOrderKeys(t);
    PostOrderKeys(t);
  }

  /** Every key the in-order traversal lists obeys the bounds of the subtree. */
  lemma {:induction false} InOrderBounds(t: Tree, v: int)
    ensures AllBelow(t, v) ==> forall i :: 0 <= i < |DfsInOrder(t)| ==> DfsInOrder(t)[i] < v
    ensures AllAtLeast(t, v) ==> forall i :: 0 <= i < |DfsInOrder(t)| ==> v <= DfsInOrder(t)[i]
  {
    match t
    case Leaf =>
    case Node(l, _, r) =>
      InOrderBounds(l, v);
      InOrderBounds(r, v);
  }

  lemma SortedJoin(a: seq<int>, v: int, b: seq<int>)
    requires Sorted(a) && Sorted(b)
    requires forall i :: 0 <= i < |a| ==> a[i] < v
    requires forall i :: 0 <= i < |b| ==> v <= b[i]
    ensures Sorted(a + [v] + b)
  {
    var s := a + [v] + b;
    forall i, j | 0 <= i < j < |s| ensures s[i] <= s[j] {
      if j < |a| {
      } else if i > |a| {
        assert s[i] == b[i - |a| - 1] && s[j] == b[j - |a| - 1];
      } else if i < |a| && j > |a| {
        assert s[j] == b[j - |a| - 1];
      }
    }
  }

  /** The in-order traversal of a search tree is non-decreasing. */
  lemma {:induction false} InOrderSorted(t: Tree)
    requires IsBst(t)
    ensures Sorted(DfsInOrder(t))
  {
    match t
    case Leaf =>
    case Node(l, v, r) =>
      InOrderSorted(l);
      InOrderSorted(r);
      InOrderBounds(l, v);
      InOrderBounds(r, v);
      SortedJoin(DfsInOrder(l), v, DfsInOrder(r));
  }

  // ---------------------------------------------------------------------
  // Breadth-first traversal

  /** The non-empty children of a node, left before right: what bfs enqueues. */
  function Children(t: Tree): seq<Tree>
  {
    match t
    case Leaf => []
    case Node(l, _, r) => (if l.Node? then [l] else []) + (if r.Node? then [r] else [])
  }

  /** Number of nodes held by a queue of subtrees. */
  function SizeSum(q: seq<Tree>): nat
  {
    if q == [] then 0 else Size(q[0]) + SizeSum(q[1..])
  }

  function KeysSum(q: seq<Tree>): multiset<int>
  {
    if q == [] then multiset{} else Keys(q[0]) + KeysSum(q[1..])
  }

  lemma {:induction false} SumsAppend(a: seq<Tree>, b: seq<Tree>)
    ensures SizeSum(a + b) == SizeSum(a) + SizeSum(b)
    ensures KeysSum(a + b) == KeysSum(a) + KeysSum(b)
  {
    if a == [] {
      assert a + b == b;
    } else {
      assert (a + b)[0] == a[0] && (a + b)[1..] == a[1..] + b;
      SumsAppend(a[1..], b);
    }
  }

  lemma ChildrenSums(t: Tree)
    requires t.Node?
    ensures SizeSum(Children(t)) + 1 == Size(t)
    ensures KeysSum(Children(t)) + multiset{t.val} == Keys(t)
  {
    var cl: seq<Tree> := if t.left.Node? then [t.left] else [];
    var cr: seq<Tree> := if t.right.Node? then [t.right] else [];
    SumsAppend(cl, cr);
    SumsOne(t.left);
    SumsOne(t.right);
  }

  lemma SumsOne(t: Tree)
    ensures SizeSum(if t.Node? then [t] else []) == Size(t)
    ensures KeysSum(if t.Node? then [t] else []) == Keys(t)
  {
    if t.Node? {
      assert [t][1..] == [];
    }
  }

  /** Level order of a FIFO queue of subtrees: take the head, visit its key,
    * enqueue its existing children left then right, and go on with the queue.
    * (bfs never enqueues an empty subtree; one would simply be skipped.) */
  function LevelOrder(q: seq<Tree>): seq<int>
    decreases SizeSum(q), |q|
  {
    if q == [] then []
    else if q[0] == Leaf then LevelOrder(q[1..])
    else
      SumsAppend(q[1..], Children(q[0]));
      ChildrenSums(q[0]);
      [q[0].val] + LevelOrder(q[1..] + Children(q[0]))
  }

  /** The queue discipline visits every node it holds exactly once. */
  lemma {:induction false} LevelOrderKeys(q: seq<Tree>)
    ensures |LevelOrder(q)| == SizeSum(q)
    ensures multiset(LevelOrder(q)) == KeysSum(q)
    decreases SizeSum(q), |q|
  {
    if q != [] {
      if q[0] == Leaf {
        LevelOrderKeys(q[1..]);
      } else {
        var q' := q[1..] + Children(q[0]);
        SumsAppend(q[1..], Children(q[0]));
        ChildrenSums(q[0]);
        LevelOrderKeys(q');
        assert LevelOrder(q) == [q[0].val] + LevelOrder(q');
      }
    }
  }

  /** bfs from a root lists every key exactly once, the root first, and holds
    * the same multiset of keys as the depth-first traversals. */
  lemma BfsKeys(t: Tree)
    requires t.Node?
    ensures |LevelOrder([t])| == Size(t)
    ensures multiset(LevelOrder([t])) == Keys(t) == multiset(DfsInOrder(t))
    ensures LevelOrder([t])[0] == t.val
  {
    LevelOrderKeys([t]);
    InOrderKeys(t);
    assert SizeSum([t]) == Size(t) + SizeSum([]);
    assert KeysSum([t]) == Keys(t) + KeysSum([]);
    assert [t][1..] == [];
  }

  /** Keys of the non-empty subtrees of a queue, in queue order. */
  function Roots(q: seq<Tree>): seq<int>
  {
    if q == [] then [] else (if q[0].Node? then [q[0].val] else []) + Roots(q[1..])
  }

  /** The next generation of a queue: the non-empty children of each of its
    * subtrees, in queue order. */
  function Below(q: seq<Tree>): seq<Tree>
  {
    if q == [] then [] else Children(q[0]) + Below(q[1..])
  }

  /** Processing a queue `a + b` visits the roots of `a` and leaves their
    * children queued behind `b`. */
  lemma {:induction false} LevelOrderSplit(a: seq<Tree>, b: seq<Tree>)
    ensures LevelOrder(a + b) == Roots(a) + LevelOrder(b + Below(a))
    decreases |a|, 1
  {
    if a == [] {
      assert a + b == b && b + Below(a) == b;
    } else if a[0] == Leaf {
      SplitAtLeaf(a, b);
    } else {
      SplitAtNode(a, b);
    }
  }

  /** LevelOrderSplit when the front of `a` is an empty subtree. */
  lemma {:induction false} SplitAtLeaf(a: seq<Tree>, b: seq<Tree>)
    requires a != [] && a[0] == Leaf
    ensures LevelOrder(a + b) == Roots(a) + LevelOrder(b + Below(a))
    decreases |a|, 0
  {
    var rest := a[1..];
    assert (a + b)[0] == Leaf && (a + b)[1..] == rest + b;
    LevelOrderSplit(rest, b);
    calc {
      LevelOrder(a + b);
      LevelOrder(rest + b);
      Roots(rest) + LevelOrder(b + Below(rest));
      { assert Roots(a) == Roots(rest) && Below(a) == Below(rest); }
      Roots(a) + LevelOrder(b + Below(a));
    }
  }

  /** LevelOrderSplit when the front of `a` is a node: its key comes out
    * first and its children join the back of the queue. */
  lemma {:induction false} SplitAtNode(a: seq<Tree>, b: seq<Tree>)
    requires a != [] && a[0].Node?
    ensures LevelOrder(a + b) == Roots(a) + LevelOrder(b + Below(a))
    decreases |a|, 0
  {
    var t, rest := a[0], a[1..];
    var b' := b + Children(t);
    assert a + b == [t] + (rest + b);
    LevelOrderFront(t, rest + b);
    AppendAssoc(rest, b, Children(t));
    LevelOrderSplit(rest, b');
    assert Below(a) == Children(t) + Below(rest);
    AppendAssoc(b, Children(t), Below(rest));
    assert Roots(a) == [t.val] + Roots(rest);
    AppendAssoc([t.val], Roots(rest), LevelOrder(b + Below(a)));
  }

  /** One step of the queue discipline on a node at the front. */
  lemma LevelOrderFront(t: Tree, q: seq<Tree>)
    requires t.Node?
    ensures LevelOrder([t] + q) == [t.val] + LevelOrder(q + Children(t))
  {
    assert ([t] + q)[0] == t && ([t] + q)[1..] == q;
  }

  /** Keys at depth `d` of a tree (the root is at depth 0), left to right. */
  function AtDepth(t: Tree, d: nat): seq<int>
  {
    match t
    case Leaf => []
    case Node(l, v, r) => if d == 0 then [v] else AtDepth(l, d - 1) + AtDepth(r, d - 1)
  }

  function AtDepthAll(q: seq<Tree>, d: nat): seq<int>
  {
    if q == [] then [] else AtDepth(q[0], d) + AtDepthAll(q[1..], d)
  }

  function HeightAll(q: seq<Tree>): nat
  {
    if q == [] then 0 else Max(Height(q[0]), HeightAll(q[1..]))
  }

  /** Level order written out level by level: every key at depth `d`, left to
    * right, then every key at depth `d + 1`, and so on. */
  function ByLevel(q: seq<Tree>, d: nat): seq<int>
    decreases HeightAll(q) - d
  {
    if d >= HeightAll(q) then [] else AtDepthAll(q, d) + ByLevel(q, d + 1)
  }

  lemma {:induction false} AllAppend(a: seq<Tree>, b: seq<Tree>, d: nat)
    ensures AtDepthAll(a + b, d) == AtDepthAll(a, d) + AtDepthAll(b, d)
    ensures HeightAll(a + b) == Max(HeightAll(a), HeightAll(b))
  {
    if a == [] {
      assert a + b == b;
    } else {
      assert (a + b)[0] == a[0] && (a + b)[1..] == a[1..] + b;
      AllAppend(a[1..], b, d);
    }
  }

  lemma ChildrenOneDown(t: Tree, d: nat)
    ensures AtDepthAll(Children(t), d) == AtDepth(t, d + 1)
    ensures HeightAll(Children(t)) == if t == Leaf then 0 else Height(t) - 1
  {
    if t.Node? {
      var cl: seq<Tree> := if t.left.Node? then [t.left] else [];
      var cr: seq<Tree> := if t.right.Node? then [t.right] else [];
      AllAppend(cl, cr, d);
      assert AtDepthAll(cl, d) == AtDepth(t.left, d);
      assert AtDepthAll(cr, d) == AtDepth(t.right, d);
    }
  }

  /** The next generation holds exactly the keys one level further down. */
  lemma {:induction false} BelowOneDown(q: seq<Tree>, d: nat)
    ensures AtDepthAll(Below(q), d) == AtDepthAll(q, d + 1)
    ensures HeightAll(Below(q)) == if HeightAll(q) == 0 then 0 else HeightAll(q) - 1
  {
    if q != [] {
      BelowOneDown(q[1..], d);
      ChildrenOneDown(q[0], d);
      AllAppend(Children(q[0]), Below(q[1..]), d);
    }
  }

  lemma {:induction false} ByLevelBelow(q: seq<Tree>, d: nat)
    ensures ByLevel(Below(q), d) == ByLevel(q, d + 1)
    decreases HeightAll(q) - d
  {
    BelowOneDown(q, d);
    if d + 1 < HeightAll(q) {
      ByLevelBelow(q, d + 1);
    }
  }

  lemma {:induction false} RootsAtDepthZero(q: seq<Tree>)
    ensures Roots(q) == AtDepthAll(q, 0)
    ensures Roots(q) == [] <==> HeightAll(q) == 0
  {
    if q != [] {
      RootsAtDepthZero(q[1..]);
    }
  }

  lemma {:induction false} BelowSize(q: seq<Tree>)
    ensures SizeSum(Below(q)) + |Roots(q)| == SizeSum(q)
    ensures HeightAll(q) == 0 ==> Below(q) == []
  {
    if q != [] {
      BelowSize(q[1..]);
      SumsAppend(Children(q[0]), Below(q[1..]));
      if q[0].Node? {
        ChildrenSums(q[0]);
      }
    }
  }

  /** The queue discipline of bfs visits the nodes level by level, left to
    * right within a level. */
  lemma {:induction false} LevelOrderIsByLevel(q: seq<Tree>)
    ensures LevelOrder(q) == ByLevel(q, 0)
    decreases SizeSum(q)
  {
    LevelOrderSplit(q, []);
    assert q + [] == q && [] + Below(q) == Below(q);
    RootsAtDepthZero(q);
    BelowSize(q);
    if HeightAll(q) != 0 {
      LevelOrderIsByLevel(Below(q));
      ByLevelBelow(q, 0);
    }
  }

  // ---------------------------------------------------------------------
  // isBalanced

  function AbsInt(a: int): nat { if a < 0 then -a else a }

  /** The balance test of isBalanced: the heights of the root's two subtrees
    * differ by at most one; an empty tree is balanced. Nothing is required of
    * the nodes below the root. */
  predicate IsBalanced(t: Tree)
  {
    t == Leaf || AbsInt(Height(t.left) - Height(t.right)) <= 1
  }

  /** Balance at the root says nothing about the subtrees below it. */
  lemma BalancedAtRootOnly()
    ensures var lopsided := Node(Node(Node(Leaf, 1, Leaf), 2, Leaf), 3, Leaf);
            !IsBalanced(lopsided) && IsBalanced(Node(lopsided, 4, Node(Leaf, 5, Node(Leaf, 6, Leaf))))
  {
  }

  // ---------------------------------------------------------------------
  // findSecondHighest

  /** highest(node): the key at the end of the rightmost spine. */
  function Highest(t: Tree): (r: Option<int>)
    ensures r.None? <==> t == Leaf
  {
    match t
    case Leaf => None
    case Node(_, v, rt) => if rt.Node? then Highest(rt) else Some(v)
  }

  /** secondHighest(node): below the rightmost spine's last node, either its
    * spine predecessor or the highest key of its left subtree. */
  function SecondHighest(t: Tree): (r: Option<int>)
  {
    match t
    case Leaf => None
    case Node(l, v, rt) =>
      if rt.Node? then
        var h := SecondHighest(rt);
        if h.None? then Some(v) else h
      else if l.Node? then Highest(l)
      else None
  }

  function FindSecondHighest(t: Tree): (r: Option<int>)
  {
    if t == Leaf then None else SecondHighest(t)
  }

  /** The highest key is the last one in in-order. */
  lemma {:induction false} HighestIsLast(t: Tree)
    requires t.Node?
    ensures Highest(t) == Some(DfsInOrder(t)[Size(t) - 1])
  {
    var Node(l, v, r) := t;
    assert DfsInOrder(t) == DfsInOrder(l) + [v] + DfsInOrder(r);
    if r.Node? {
      HighestIsLast(r);
    }
  }

  /** The second highest key is the last but one in in-order, and there is
    * none in a tree of fewer than two nodes. */
  lemma {:induction false} SecondHighestIsPenultimate(t: Tree)
    ensures SecondHighest(t) == if Size(t) >= 2 then Some(DfsInOrder(t)[Size(t) - 2]) else None
  {
    match t
    case Leaf =>
    case Node(l, v, r) =>
      var s := DfsInOrder(t);
      assert s == DfsInOrder(l) + [v] + DfsInOrder(r);
      if r.Node? {
        SecondHighestIsPenultimate(r);
      } else if l.Node? {
        HighestIsLast(l);
      }
  }

  /** On a search tree the result is the second largest key: every key other
    * than the highest is at most that large, and when the highest key occurs
    * twice it is the second highest as well. */
  lemma SecondHighestIsSecondLargest(t: Tree)
    requires IsBst(t)
    requires FindSecondHighest(t).Some?
    ensures Highest(t).Some?
    ensures FindSecondHighest(t).value <= Highest(t).value
    ensures forall k :: k in Keys(t) && k != Highest(t).value ==> k <= FindSecondHighest(t).value
    ensures Keys(t)[Highest(t).value] >= 2 ==> FindSecondHighest(t) == Highest(t)
  {
    var s := DfsInOrder(t);
    SecondHighestIsPenultimate(t);
    HighestIsLast(t);
    assert Highest(t) == Some(s[|s| - 1]) && FindSecondHighest(t) == Some(s[|s| - 2]);
    InOrderSorted(t);
    InOrderKeys(t);
    assert multiset(s) == Keys(t);
    SortedTopTwo(s);
  }

  /** The last two elements of a sorted sequence are its two largest. */
  lemma SortedTopTwo(s: seq<int>)
    requires Sorted(s) && |s| >= 2
    ensures s[|s| - 2] <= s[|s| - 1]
    ensures forall k :: k in multiset(s) && k != s[|s| - 1] ==> k <= s[|s| - 2]
    ensures multiset(s)[s[|s| - 1]] >= 2 ==> s[|s| - 2] == s[|s| - 1]
  {
    var n := |s|;
    forall k | k in multiset(s) && k != s[n - 1]
      ensures k <= s[n - 2]
    {
      assert k in s;
      var i :| 0 <= i < n && s[i] == k;
    }
    var front := s[..n - 1];
    assert s == front + [s[n - 1]];
    if multiset(s)[s[n - 1]] >= 2 {
      assert s[n - 1] in multiset(front);
      var i :| 0 <= i < n - 1 && front[i] == s[n - 1];
      assert s[i] <= s[n - 2];
    }
  }

  // ---------------------------------------------------------------------
  // Removal

  /** The key at the end of the leftmost spine (the in-order successor of a
    * node is the minimum of its right subtree). */
  function Min(t: Tree): (m: int)
    requires t.Node?
  {
    if t.left == Leaf then t.val else Min(t.left)
  }

  /** Removing the leftmost node: its right child takes its place. */
  function RemoveMin(t: Tree): (r: Tree)
    requires t.Node?
  {
    if t.left == Leaf then t.right else Node(RemoveMin(t.left), t.val, t.right)
  }

  /** removeNode on the node holding the root of `t`: a leaf disappears, a
    * single child is promoted, and with two children the minimum of the right
    * subtree takes over the key while its own node is removed. */
  function RemoveRoot(t: Tree): (r: Tree)
    requires t.Node?
  {
    var Node(l, _, rt) := t;
    if l == Leaf && rt == Leaf then Leaf
    else if l != Leaf && rt != Leaf then Node(l, Min(rt), RemoveMin(rt))
    else if l != Leaf then l
    else rt
  }

  /** remove(x): remove the first node holding `x` on the search path. */
  function TreeRemove(t: Tree, x: int): (r: Tree)
    ensures FindRecursively(t, x).None? ==> r == t
  {
    match t
    case Leaf => Leaf
    case Node(l, v, rt) =>
      if x > v then Node(l, v, TreeRemove(rt, x))
      else if x < v then Node(TreeRemove(l, x), v, rt)
      else RemoveRoot(t)
  }

  /** Removing the minimum takes the first key off the in-order sequence. */
  lemma {:induction false} RemoveMinInOrder(t: Tree)
    requires t.Node?
    ensures DfsInOrder(t) == [Min(t)] + DfsInOrder(RemoveMin(t))
  {
    var Node(l, v, r) := t;
    if l != Leaf {
      RemoveMinInOrder(l);
      assert DfsInOrder(t) == DfsInOrder(l) + [v] + DfsInOrder(r);
    }
  }

  lemma RemoveRootInOrder(t: Tree)
    requires t.Node?
    ensures DfsInOrder(RemoveRoot(t)) == DfsInOrder(t.left) + DfsInOrder(t.right)
  {
    if t.left != Leaf && t.right != Leaf {
      RemoveMinInOrder(t.right);
    }
  }

  /** `s` without its element at index `i`. */
  function Delete(s: seq<int>, i: nat): (r: seq<int>)
    requires i < |s|
    ensures |r| == |s| - 1
  {
    s[..i] + s[i + 1..]
  }

  lemma DeleteKeys(s: seq<int>, i: nat)
    requires i < |s|
    ensures multiset(Delete(s, i)) == multiset(s) - multiset{s[i]}
  {
    assert s == s[..i] + [s[i]] + s[i + 1..];
  }

  lemma DeleteRight(a: seq<int>, v: int, b: seq<int>, j: nat)
    requires j < |b|
    ensures (a + [v] + b)[|a| + 1 + j] == b[j]
    ensures Delete(a + [v] + b, |a| + 1 + j) == a + [v] + Delete(b, j)
  {
    var s := a + [v] + b;
    var i := |a| + 1 + j;
    assert s[..i] == a + [v] + b[..j];
    assert s[i + 1..] == b[j + 1..];
  }

  lemma DeleteLeft(a: seq<int>, v: int, b: seq<int>, j: nat)
    requires j < |a|
    ensures (a + [v] + b)[j] == a[j]
    ensures Delete(a + [v] + b, j) == Delete(a, j) + [v] + b
  {
    var s := a + [v] + b;
    assert s[..j] == a[..j];
    assert s[j + 1..] == a[j + 1..] + [v] + b;
  }

  lemma DeleteMiddle(a: seq<int>, v: int, b: seq<int>)
    ensures (a + [v] + b)[|a|] == v
    ensures Delete(a + [v] + b, |a|) == a + b
  {
    var s := a + [v] + b;
    assert s[..|a|] == a;
    assert s[|a| + 1..] == b;
  }

  /** After removing a key that the search finds, the in-order sequence is
    * the previous one with exactly one occurrence of that key deleted. */
  lemma {:induction false} RemoveInOrder(t: Tree, x: int)
    requires FindRecursively(t, x).Some?
    ensures exists i :: 0 <= i < |DfsInOrder(t)| && DfsInOrder(t)[i] == x &&
              DfsInOrder(TreeRemove(t, x)) == Delete(DfsInOrder(t), i)
  {
    var Node(l, v, r) := t;
    var sl, sr := DfsInOrder(l), DfsInOrder(r);
    assert DfsInOrder(t) == sl + [v] + sr;
    if x > v {
      RemoveInOrder(r, x);
      var j :| 0 <= j < |sr| && sr[j] == x && DfsInOrder(TreeRemove(r, x)) == Delete(sr, j);
      DeleteRight(sl, v, sr, j);
      assert DfsInOrder(TreeRemove(t, x)) == sl + [v] + DfsInOrder(TreeRemove(r, x));
    } else if x < v {
      RemoveInOrder(l, x);
      var j :| 0 <= j < |sl| && sl[j] == x && DfsInOrder(TreeRemove(l, x)) == Delete(sl, j);
      DeleteLeft(sl, v, sr, j);
      assert DfsInOrder(TreeRemove(t, x)) == DfsInOrder(TreeRemove(l, x)) + [v] + sr;
    } else {
      RemoveRootInOrder(t);
      DeleteMiddle(sl, v, sr);
    }
  }

  /** Removing a found key takes one occurrence of it out of the key multiset
    * and one node out of the tree. */
  lemma RemoveKeys(t: Tree, x: int)
    requires FindRecursively(t, x).Some?
    ensures Keys(TreeRemove(t, x)) == Keys(t) - multiset{x}
    ensures Size(TreeRemove(t, x)) + 1 == Size(t)
  {
    RemoveInOrder(t, x);
    var i :| 0 <= i < |DfsInOrder(t)| && DfsInOrder(t)[i] == x &&
             DfsInOrder(TreeRemove(t, x)) == Delete(DfsInOrder(t), i);
    DeleteKeys(DfsInOrder(t), i);
    InOrderKeys(t);
    InOrderKeys(TreeRemove(t, x));
  }

  /** The minimum is one of the keys of the tree. */
  lemma {:induction false} MinInKeys(t: Tree)
    requires t.Node?
    ensures Min(t) in Keys(t)
  {
    if t.left != Leaf {
      MinInKeys(t.left);
    }
  }

  /** The minimum obeys every bound the whole tree obeys. */
  lemma {:induction false} MinBounds(t: Tree, v: int)
    requires t.Node?
    ensures AllBelow(t, v) ==> Min(t) < v
    ensures AllAtLeast(t, v) ==> v <= Min(t)
  {
    if t.left != Leaf {
      MinBounds(t.left, v);
    }
  }

  lemma {:induction false} RemoveMinBounds(t: Tree, v: int)
    requires t.Node?
    ensures AllBelow(t, v) ==> AllBelow(RemoveMin(t), v)
    ensures AllAtLeast(t, v) ==> AllAtLeast(RemoveMin(t), v)
  {
    if t.left != Leaf {
      RemoveMinBounds(t.left, v);
    }
  }

  lemma {:induction false} AllBelowWeaken(t: Tree, a: int, b: int)
    requires AllBelow(t, a) && a <= b
    ensures AllBelow(t, b)
  {
    match t
    case Leaf =>
    case Node(l, _, r) =>
      AllBelowWeaken(l, a, b);
      AllBelowWeaken(r, a, b);
  }

  lemma {:induction false} AllAtLeastWeaken(t: Tree, a: int, b: int)
    requires AllAtLeast(t, b) && a <= b
    ensures AllAtLeast(t, a)
  {
    match t
    case Leaf =>
    case Node(l, _, r) =>
      AllAtLeastWeaken(l, a, b);
      AllAtLeastWeaken(r, a, b);
  }

  /** In a search tree the minimum is at most every key. */
  lemma {:induction false} MinIsLeast(t: Tree)
    requires t.Node? && IsBst(t)
    ensures AllAtLeast(t, Min(t))
  {
    var Node(l, v, r) := t;
    if l != Leaf {
      MinIsLeast(l);
      MinBounds(l, v);
      AllAtLeastWeaken(r, Min(l), v);
    }
  }

  lemma {:induction false} RemoveMinKeepsBst(t: Tree)
    requires t.Node? && IsBst(t)
    ensures IsBst(RemoveMin(t))
  {
    var Node(l, v, r) := t;
    if l != Leaf {
      RemoveMinKeepsBst(l);
      RemoveMinBounds(l, v);
    }
  }

  lemma RemoveRootKeepsBst(t: Tree)
    requires t.Node? && IsBst(t)
    ensures IsBst(RemoveRoot(t))
  {
    var Node(l, v, r) := t;
    if l != Leaf && r != Leaf {
      var m := Min(r);
      MinIsLeast(r);
      RemoveMinKeepsBst(r);
      RemoveMinBounds(r, m);
      MinBounds(r, v);
      AllBelowWeaken(l, v, m);
    }
  }

  lemma RemoveRootBounds(t: Tree, b: int)
    requires t.Node?
    ensures AllBelow(t, b) ==> AllBelow(RemoveRoot(t), b)
    ensures AllAtLeast(t, b) ==> AllAtLeast(RemoveRoot(t), b)
  {
    if t.left != Leaf && t.right != Leaf {
      MinBounds(t.right, b);
      RemoveMinBounds(t.right, b);
    }
  }

  lemma {:induction false} RemoveBounds(t: Tree, x: int, b: int)
    ensures AllBelow(t, b) ==> AllBelow(TreeRemove(t, x), b)
    ensures AllAtLeast(t, b) ==> AllAtLeast(TreeRemove(t, x), b)
  {
    match t
    case Leaf =>
    case Node(l, v, r) =>
      if x > v {
        RemoveBounds(r, x, b);
      } else if x < v {
        RemoveBounds(l, x, b);
      } else {
        RemoveRootBounds(t, b);
      }
  }

  /** Removal keeps the order invariant. */
  lemma {:induction false} RemoveKeepsBst(t: Tree, x: int)
    requires IsBst(t)
    ensures IsBst(TreeRemove(t, x))
  {
    match t
    case Leaf =>
    case Node(l, v, r) =>
      if x > v {
        RemoveKeepsBst(r, x);
        RemoveBounds(r, x, v);
      } else if x < v {
        RemoveKeepsBst(l, x);
        RemoveBounds(l, x, v);
      } else {
        RemoveRootKeepsBst(t);
      }
  }

  /** Removing a key that is absent leaves the tree as it was. */
  lemma RemoveAbsent(t: Tree, x: int)
    requires IsBst(t) && x !in Keys(t)
    ensures TreeRemove(t, x) == t
  {
    FindRecursivelyComplete(t, x);
  }

  /** The key held afterwards by the node remove returns as written: remove
    * returns the node its search found, and when that node has two children
    * the swap has handed it its successor's key. */
  function ReturnedKey(t: Tree, x: int): (r: Option<int>)
    ensures r.None? <==> FindRecursively(t, x).None?
  {
    match FindRecursively(t, x)
    case None => None
    case Some(s) => if s.left.Node? && s.right.Node? then Some(Min(s.right)) else Some(x)
  }

  lemma {:induction false} FoundKeys(t: Tree, x: int)
    requires FindRecursively(t, x).Some?
    ensures Keys(FindRecursively(t, x).value) <= Keys(t)
  {
    match t
    case Node(l, v, r) =>
      if x > v {
        FoundKeys(r, x);
      } else if x < v {
        FoundKeys(l, x);
      }
  }

  /** When the key occurs once and the node holding it has two children, the
    * node remove returns as written no longer holds the key. */
  lemma ReturnedKeyIsNotRemoved(t: Tree, x: int)
    requires Keys(t)[x] == 1 && FindRecursively(t, x).Some?
    requires FindRecursively(t, x).value.left.Node? && FindRecursively(t, x).value.right.Node?
    ensures ReturnedKey(t, x).Some? && ReturnedKey(t, x).value != x
  {
    var s := FindRecursively(t, x).value;
    FoundKeys(t, x);
    MinInKeys(s.right);
    assert Keys(s) == Keys(s.left) + multiset{x} + Keys(s.right);
  }

  // ---------------------------------------------------------------------
  // Worked examples

  /** A tree holding the single key `v`. */
  function Single(v: int): Tree { Node(Leaf, v, Leaf) }

  lemma BalanceExamples()
    ensures IsBalanced(InsertAll(Leaf, [10, 5, 15]))
    ensures !IsBalanced(InsertAll(Leaf, [10, 5, 1]))
  {
    assert InsertAll(Leaf, [10, 5, 15]) == Node(Single(5), 10, Single(15));
    assert InsertAll(Leaf, [10, 5, 1]) == Node(Node(Single(1), 5, Leaf), 10, Leaf);
  }

  lemma SecondHighestExamples()
    ensures FindSecondHighest(InsertAll(Leaf, [5, 3, 8, 1, 4, 7, 9])) == Some(8)
    ensures FindSecondHighest(InsertAll(Leaf, [5])) == None
    ensures FindSecondHighest(InsertAll(Leaf, [5, 3])) == Some(3)
  {
    assert InsertAll(Leaf, [5, 3, 8, 1, 4, 7, 9]) == Node(Node(Single(1), 3, Single(4)), 5, Node(Single(7), 8, Single(9)));
  }

  /** remove(10) on this tree returns, as written, a node holding 12, though
    * 10 occurs once. */
  lemma ReturnedKeyExample()
    ensures var t := InsertAll(Leaf, [10, 5, 15, 3, 7, 12, 20]);
            ReturnedKey(t, 10) == Some(12) && Keys(t)[10] == 1
  {
    assert InsertAll(Leaf, [10, 5, 15, 3, 7, 12, 20]) == Node(Node(Single(3), 5, Single(7)), 10, Node(Single(12), 15, Single(20)));
  }

  /** The two-child root removal: the key is gone and the in-order successor
    * becomes the root. */
  lemma RemoveExample()
    ensures var t := InsertAll(Leaf, [10, 5, 15, 3, 7, 12, 20]);
            DfsInOrder(TreeRemove(t, 10)) == [3, 5, 7, 12, 15, 20] &&
            TreeRemove(t, 10).val == 12
  {
    var t := Node(Node(Single(3), 5, Single(7)), 10, Node(Single(12), 15, Single(20)));
    assert InsertAll(Leaf, [10, 5, 15, 3, 7, 12, 20]) == t;
    var t' := Node(Node(Single(3), 5, Single(7)), 12, Node(Leaf, 15, Single(20)));
    assert TreeRemove(t, 10) == t';
    assert DfsInOrder(t'.left) == [3, 5, 7] && DfsInOrder(t'.right) == [15, 20];
  }
}
