/** BinarySearchTree over linked nodes. The nested helper functions of its
  * methods are the module-level methods below; each walks a node structure
  * described by a ghost `Shape` and is proved against the value-level
  * model of BstModel. */
module Bst {
  import opened BstModel
  import opened BstHeap

  // ---------------------------------------------------------------------
  // insertRecursively

  /** insert(node): put a fresh node for `val` at the end of the search path
    * below `node` and return the new top of that subtree. */
  method InsertAt(node: Node?, val: int, ghost s: Shape) returns (r: Node, ghost s': Shape, ghost added: Node)
    requires Ptr(s) == node && Linked(s) && Distinct(s)
    modifies Nodes(s)`left, Nodes(s)`right
    ensures Ptr(s') == r && Linked(s') && Distinct(s')
    ensures node != null ==> r == node
    ensures fresh(added) && Nodes(s') == Nodes(s) + {added}
    ensures added.val == val && added.left == null && added.right == null
    ensures TreeOf(s') == TreeInsert(old(TreeOf(s)), val)
    decreases s
  {
    if node == null {
      r := new Node(val, null, null);
      s', added := Cell(Nil, r, Nil), r;
      return;
    }
    NodesAllocated(s.l);
    NodesAllocated(s.r);
    ghost var t := TreeOf(s);
    if val < node.val {
      ghost var goal := TreeInsert(t.left, val);
      assert TreeInsert(t, val) == Tree.Node(goal, t.val, t.right);
      var l;
      ghost var sl;
      l, sl, added := InsertAt(node.left, val, s.l);
      assert node !in Nodes(sl) && Nodes(sl) !! Nodes(s.r);
      assert Linked(s.r) && TreeOf(s.r) == t.right && node.right == Ptr(s.r);
      node.left := l;
      s' := Cell(sl, node, s.r);
      assert Linked(sl) && TreeOf(sl) == goal;
      assert Linked(s.r) && TreeOf(s.r) == t.right;
    } else {
      ghost var goal := TreeInsert(t.right, val);
      assert TreeInsert(t, val) == Tree.Node(t.left, t.val, goal);
      var rt;
      ghost var sr;
      rt, sr, added := InsertAt(node.right, val, s.r);
      assert node !in Nodes(sr) && Nodes(s.l) !! Nodes(sr);
      assert Linked(s.l) && TreeOf(s.l) == t.left && node.left == Ptr(s.l);
      node.right := rt;
      s' := Cell(s.l, node, sr);
      assert Linked(sr) && TreeOf(sr) == goal;
      assert Linked(s.l) && TreeOf(s.l) == t.left;
    }
    r := node;
  }

  // ---------------------------------------------------------------------
  // Read-only walks

  /** find(node) inside findRecursively. */
  method FindFrom(node: Node?, val: int, ghost s: Shape) returns (r: Node?)
    requires Ptr(s) == node && Linked(s)
    ensures r == Ptr(FindShape(s, val))
    decreases s
  {
    if node == null {
      return null;
    }
    if val > node.val {
      r := FindFrom(node.right, val, s.r);
    } else if val < node.val {
      r := FindFrom(node.left, val, s.l);
    } else {
      r := node;
    }
  }

  /** visit(node) inside dfsPreOrder. */
  method PreOrderFrom(node: Node?, ghost s: Shape) returns (r: seq<int>)
    requires Ptr(s) == node && Linked(s)
    ensures r == DfsPreOrder(TreeOf(s))
    decreases s
  {
    if node == null {
      return [];
    }
    NodesAllocated(s.l);
    NodesAllocated(s.r);
    var a := PreOrderFrom(node.left, s.l);
    var b := PreOrderFrom(node.right, s.r);
    r := [node.val] + a + b;
  }

  /** visit(node) inside dfsInOrder. */
  method InOrderFrom(node: Node?, ghost s: Shape) returns (r: seq<int>)
    requires Ptr(s) == node && Linked(s)
    ensures r == DfsInOrder(TreeOf(s))
    decreases s
  {
    if node == null {
      return [];
    }
    NodesAllocated(s.l);
    NodesAllocated(s.r);
    var a := InOrderFrom(node.left, s.l);
    var b := InOrderFrom(node.right, s.r);
    r := a + [node.val] + b;
  }

  /** visit(node) inside dfsPostOrder. */
  method PostOrderFrom(node: Node?, ghost s: Shape) returns (r: seq<int>)
    requires Ptr(s) == node && Linked(s)
    ensures r == DfsPostOrder(TreeOf(s))
    decreases s
  {
    if node == null {
      return [];
    }
    NodesAllocated(s.l);
    NodesAllocated(s.r);
    var a := PostOrderFrom(node.left, s.l);
    var b := PostOrderFrom(node.right, s.r);
    r := a + b + [node.val];
  }

  /** level(node, high) inside isBalanced: the depth reached below `node`
    * counting from `high`, which is `high` plus the height of the subtree. */
  method LevelFrom(node: Node?, high: int, ghost s: Shape) returns (r: int)
    requires Ptr(s) == node && Linked(s)
    ensures r == high + Height(TreeOf(s))
    decreases s
  {
    if node == null {
      return high;
    }
    NodesAllocated(s.l);
    NodesAllocated(s.r);
    var a := LevelFrom(node.left, high + 1, s.l);
    var b := LevelFrom(node.right, high + 1, s.r);
    r := if a < b then b else a;
  }

  /** highest(node) inside findSecondHighest (`None` for undefined). */
  method HighestFrom(node: Node?, ghost s: Shape) returns (r: Option<int>)
    requires Ptr(s) == node && Linked(s)
    ensures r == Highest(TreeOf(s))
    decreases s
  {
    if node == null {
      return None;
    }
    if node.right != null {
      r := HighestFrom(node.right, s.r);
      return;
    }
    r := Some(node.val);
  }

  /** secondHighest(node) inside findSecondHighest (`None` for undefined). */
  method SecondHighestFrom(node: Node?, ghost s: Shape) returns (r: Option<int>)
    requires Ptr(s) == node && Linked(s)
    ensures r == SecondHighest(TreeOf(s))
    decreases s
  {
    if node == null {
      return None;
    }
    if node.right != null {
      var h := SecondHighestFrom(node.right, s.r);
      if h.None? {
        return Some(node.val);
      }
      return h;
    }
    if node.left != null {
      r := HighestFrom(node.left, s.l);
      return;
    }
    r := None;
  }

  // ---------------------------------------------------------------------
  // remove

  /** findMin(node, parent): follow left links from `node` to the node with
    * no left child, keeping its parent. `p` is the path to `node`. */
  method FindMin(node: Node, parent: Node, ghost p: Path, ghost s: Shape)
    returns (m: Node, mp: Node, ghost q: Path, ghost ms: Shape)
    requires s.Cell? && s.n == node && !p.Top? && p.n == parent && Linked(s)
    ensures m == MinNode(s) && m.val == Min(TreeOf(s))
    ensures ms.Cell? && ms.n == m && ms.l.Nil? && !q.Top? && q.n == mp
    ensures Plug(q, ms) == Plug(p, s) && Plug(q, ms.r) == Plug(p, RemoveMinShape(s))
    ensures Nodes(ms) <= Nodes(s) && (mp == parent || mp in Nodes(s))
    decreases s
  {
    if node.left == null {
      return node, parent, p, s;
    }
    m, mp, q, ms := FindMin(node.left, node, GoLeft(p, node, s.r), s.l);
  }

  /** swap(a, b): exchange the keys of two nodes. */
  method Swap(a: Node, b: Node)
    modifies a`val, b`val
    ensures a.val == old(b.val) && b.val == old(a.val)
  {
    var temp := a.val;
    a.val := b.val;
    b.val := temp;
  }

  /** The two guarded assignments with which removeNode makes the parent's
    * link to `node` point to `child` instead. */
  method ReplaceChild(parent: Node, node: Node, child: Node?, ghost p: Path)
    requires !p.Top? && p.n == parent && PathDistinct(p) && node !in PathNodes(p)
    requires PathLinked(p, node)
    modifies parent`left, parent`right
    ensures PathLinked(p, child)
  {
    PathNodesAllocated(p);
    if parent.left == node {
      parent.left := child;
    }
    if parent.right == node {
      parent.right := child;
    }
  }

  /** removeNode(node, parent): unlink `node`, the top of `s`, from below
    * `parent`, the innermost node of the path `p`. A leaf is cut off, a
    * single child takes its place, and with two children `node` takes over
    * the key of its in-order successor, whose node is removed instead.
    * Returns the unlinked node, which carries the key `node` had. */
  method RemoveNode(node: Node, parent: Node, ghost p: Path, ghost s: Shape) returns (removed: Node)
    requires !p.Top? && p.n == parent && s.Cell? && s.n == node
    requires Linked(Plug(p, s)) && Distinct(Plug(p, s))
    modifies parent`left, parent`right, Nodes(s)`left, Nodes(s)`right, Nodes(s)`val
    ensures Linked(Plug(p, RemoveRootShape(s))) && Distinct(Plug(p, RemoveRootShape(s)))
    ensures TreeOf(Plug(p, RemoveRootShape(s))) == old(PlugTree(p, RemoveRoot(TreeOf(s))))
    ensures removed == DetachedNode(s) && removed.left == null && removed.right == null
    ensures removed.val == old(node.val)
    ensures s.l.Cell? && s.r.Cell? ==> node.val == old(Min(TreeOf(s.r)))
    decreases Rank(s), 1
  {
    PlugLinked(p, s);
    if node.left == null && node.right == null {
      removed := RemoveLeaf(node, parent, p, s);
    } else if node.left != null && node.right != null {
      removed := RemoveTwoChildren(node, parent, p, s);
    } else if node.left != null {
      removed := RemoveLeftOnly(node, parent, p, s);
    } else {
      removed := RemoveRightOnly(node, parent, p, s);
    }
  }

  /** 1 when removeNode on the top of `s` recurses once, 0 otherwise. */
  function Rank(s: Shape): nat
  {
    if s.Cell? && s.l.Cell? && s.r.Cell? then 1 else 0
  }

  /** The facts about a path and the subshape below it that removeNode
    * relies on. */
  lemma PlugFacts(p: Path, s: Shape)
    requires s.Cell? && Linked(Plug(p, s)) && Distinct(Plug(p, s))
    ensures PathDistinct(p) && Distinct(s) && PathNodes(p) !! Nodes(s)
    ensures PathLinked(p, s.n) && Linked(s) && s.n !in PathNodes(p)
    ensures forall x :: x in Nodes(s) ==> allocated(x)
    ensures forall x :: x in PathNodes(p) ==> allocated(x)
  {
    PlugDistinct(p, s);
    PlugLinked(p, s);
    NodesAllocated(s);
    PathNodesAllocated(p);
  }

  /** A leaf: the parent's link to it is cleared. */
  method RemoveLeaf(node: Node, parent: Node, ghost p: Path, ghost s: Shape) returns (removed: Node)
    requires !p.Top? && p.n == parent && s == Cell(Nil, node, Nil)
    requires Linked(Plug(p, s)) && Distinct(Plug(p, s))
    modifies parent`left, parent`right
    ensures Linked(Plug(p, Nil)) && Distinct(Plug(p, Nil))
    ensures TreeOf(Plug(p, Nil)) == old(PlugTree(p, Leaf))
    ensures removed == node && node.left == null && node.right == null
  {
    PlugFacts(p, s);
    ReplaceChild(parent, node, null, p);
    PlugLinked(p, Nil);
    PlugDistinct(p, Nil);
    PlugTreeOf(p, Nil);
    return node;
  }

  /** Only a left child: it takes the node's place and the node's left link
    * is cleared. */
  method RemoveLeftOnly(node: Node, parent: Node, ghost p: Path, ghost s: Shape) returns (removed: Node)
    requires !p.Top? && p.n == parent && s.Cell? && s.n == node && s.l.Cell? && s.r.Nil?
    requires Linked(Plug(p, s)) && Distinct(Plug(p, s))
    modifies parent`left, parent`right, node`left
    ensures Linked(Plug(p, s.l)) && Distinct(Plug(p, s.l))
    ensures TreeOf(Plug(p, s.l)) == old(PlugTree(p, TreeOf(s.l)))
    ensures removed == node && node.left == null && node.right == null
  {
    PlugFacts(p, s);
    assert Distinct(Plug(p, s.l)) by { PlugDistinct(p, s.l); }
    ReplaceChild(parent, node, node.left, p);
    node.left := null;
    assert Linked(Plug(p, s.l)) by { PlugLinked(p, s.l); }
    assert TreeOf(Plug(p, s.l)) == PlugTree(p, TreeOf(s.l)) by { PlugTreeOf(p, s.l); }
    return node;
  }

  /** Only a right child: it takes the node's place and the node's right
    * link is cleared. */
  method RemoveRightOnly(node: Node, parent: Node, ghost p: Path, ghost s: Shape) returns (removed: Node)
    requires !p.Top? && p.n == parent && s.Cell? && s.n == node && s.l.Nil? && s.r.Cell?
    requires Linked(Plug(p, s)) && Distinct(Plug(p, s))
    modifies parent`left, parent`right, node`right
    ensures Linked(Plug(p, s.r)) && Distinct(Plug(p, s.r))
    ensures TreeOf(Plug(p, s.r)) == old(PlugTree(p, TreeOf(s.r)))
    ensures removed == node && node.left == null && node.right == null
  {
    PlugFacts(p, s);
    assert Distinct(Plug(p, s.r)) by { PlugDistinct(p, s.r); }
    ReplaceChild(parent, node, node.right, p);
    node.right := null;
    assert Linked(Plug(p, s.r)) by { PlugLinked(p, s.r); }
    assert TreeOf(Plug(p, s.r)) == PlugTree(p, TreeOf(s.r)) by { PlugTreeOf(p, s.r); }
    return node;
  }

  /** Two children: findMin locates the in-order successor, swap exchanges
    * the keys, and removeNode unlinks the successor's node, which has no
    * left child. */
  method RemoveTwoChildren(node: Node, parent: Node, ghost p: Path, ghost s: Shape) returns (removed: Node)
    requires !p.Top? && p.n == parent && s.Cell? && s.n == node && s.l.Cell? && s.r.Cell?
    requires Linked(Plug(p, s)) && Distinct(Plug(p, s))
    modifies Nodes(s)`left, Nodes(s)`right, Nodes(s)`val
    ensures Linked(Plug(p, RemoveRootShape(s))) && Distinct(Plug(p, RemoveRootShape(s)))
    ensures TreeOf(Plug(p, RemoveRootShape(s))) == old(PlugTree(p, RemoveRoot(TreeOf(s))))
    ensures removed == MinNode(s.r) && removed.left == null && removed.right == null
    ensures removed.val == old(node.val) && node.val == old(Min(TreeOf(s.r)))
    decreases Rank(s), 0
  {
    PlugFacts(p, s);
    NodesAllocated(Plug(p, s));
    ghost var goal := PlugTree(p, RemoveRoot(TreeOf(s)));
    var m, mp;
    ghost var q, ms;
    m, mp, q, ms := FindMin(node.right, node, GoRight(s.l, node, p), s.r);
    assert m in Nodes(s.r) && Nodes(RemoveMinShape(s.r)) == Nodes(s.r) - {m} by {
      RemoveMinShapeNodes(s.r);
    }
    NodesAllocated(RemoveMinShape(s.r));
    assert node !in Nodes(s.l) && m !in Nodes(s.l) && node !in Nodes(RemoveMinShape(s.r));
    ghost var tl, tr, mv := TreeOf(s.l), TreeOf(RemoveMinShape(s.r)), m.val;
    assert goal == PlugTree(p, Tree.Node(tl, mv, tr)) by {
      RemoveMinShapeTree(s.r);
    }
    assert m !in Nodes(RemoveMinShape(s.r));
    Swap(node, m);
    ghost var kept := Cell(s.l, node, RemoveMinShape(s.r));
    assert TreeOf(s.l) == tl && TreeOf(RemoveMinShape(s.r)) == tr && node.val == mv;
    SuccessorPlugTree(p, q, ms, kept);
    removed := RemoveNode(m, mp, q, ms);
  }

  /** After the swap, what removing the successor's node leaves in place of
    * the subtree is the subtree with its top node kept. */
  lemma SuccessorPlugTree(p: Path, q: Path, ms: Shape, kept: Shape)
    requires ms.Cell? && ms.l.Nil? && Plug(q, ms.r) == Plug(p, kept)
    ensures PlugTree(q, RemoveRoot(TreeOf(ms))) == PlugTree(p, TreeOf(kept))
  {
    PlugTreeOf(q, ms.r);
    PlugTreeOf(p, kept);
  }

  /** `current.left = new Node(val)` or `current.right = new Node(val)`: a
    * fresh node is hung in the empty slot of `current` on the side its key
    * selects, and the structure below `current` becomes the one insertion
    * makes. */
  method Attach(current: Node, val: int, ghost p: Path, ghost sub: Shape)
    returns (leaf: Node, ghost grown: Shape)
    requires sub.Cell? && sub.n == current
    requires if val < current.val then sub.l.Nil? else sub.r.Nil?
    requires Linked(sub) && Distinct(sub)
    requires PathLinked(p, current) && current !in PathNodes(p)
    modifies current`left, current`right
    ensures PathLinked(p, current)
    ensures fresh(leaf) && grown.Cell? && grown.n == current
    ensures leaf.val == val && leaf.left == null && leaf.right == null
    ensures if val < current.val then current.left == leaf else current.right == leaf
    ensures Nodes(grown) == Nodes(sub) + {leaf}
    ensures Linked(grown) && Distinct(grown)
    ensures TreeOf(grown) == TreeInsert(old(TreeOf(sub)), val)
  {
    NodesAllocated(sub.l);
    NodesAllocated(sub.r);
    PathNodesAllocated(p);
    ghost var tl, tr := TreeOf(sub.l), TreeOf(sub.r);
    assert TreeInsert(Leaf, val) == Tree.Node(Leaf, val, Leaf);
    leaf := new Node(val, null, null);
    ghost var single := Cell(Nil, leaf, Nil);
    if val < current.val {
      assert tl == Leaf;
      current.left := leaf;
      grown := Cell(single, current, sub.r);
      assert TreeOf(sub.r) == tr;
    } else {
      assert tr == Leaf;
      current.right := leaf;
      grown := Cell(sub.l, current, single);
      assert TreeOf(sub.l) == tl;
    }
    assert TreeOf(single) == Tree.Node(Leaf, val, Leaf);
  }

  /** The same step seen from the whole structure: the path from the root
    * down to `current` is untouched, so the tree as a whole becomes the one
    * insertion makes. */
  method AddLeaf(current: Node, val: int, ghost p: Path, ghost sub: Shape)
    returns (ghost n: Node, ghost grown: Shape)
    requires sub.Cell? && sub.n == current
    requires if val < current.val then sub.l.Nil? else sub.r.Nil?
    requires Linked(Plug(p, sub)) && Distinct(Plug(p, sub))
    modifies current`left, current`right
    ensures fresh(n) && Nodes(Plug(p, grown)) == Nodes(Plug(p, sub)) + {n}
    ensures n.val == val && n.left == null && n.right == null
    ensures if val < current.val then current.left == n else current.right == n
    ensures Linked(Plug(p, grown)) && Distinct(Plug(p, grown))
    ensures Ptr(Plug(p, grown)) == Ptr(Plug(p, sub))
    ensures TreeOf(Plug(p, grown)) == old(PlugTree(p, TreeInsert(TreeOf(sub), val)))
  {
    PlugFacts(p, sub);
    PlugNodes(p, sub);
    ghost var goal := PlugTree(p, TreeInsert(TreeOf(sub), val));
    n, grown := Attach(current, val, p, sub);
    PlugGrow(p, sub, n, grown);
    assert PlugTree(p, TreeOf(grown)) == goal;
  }

  /** The descent of remove: follow the search path for `val` from `node`,
    * keeping the last node left behind as `parent`, until a node holding
    * `val` or an empty link is reached. */
  method Descend(node: Node?, val: int, ghost s: Shape)
    returns (cur: Node?, parent: Node?, ghost p: Path, ghost sub: Shape)
    requires Ptr(s) == node && Linked(s) && Distinct(s)
    ensures Plug(p, sub) == s && Ptr(sub) == cur && sub == FindShape(s, val)
    ensures parent == null <==> p.Top?
    ensures parent != null ==> p.n == parent
    ensures TreeRemove(TreeOf(s), val) == PlugTree(p, TreeRemove(TreeOf(sub), val))
  {
    NodesAllocated(s);
    cur, parent := node, null;
    p, sub := Top, s;
    while cur != null && cur.val != val
      invariant Plug(p, sub) == s && Ptr(sub) == cur
      invariant parent == null <==> p.Top?
      invariant parent != null ==> p.n == parent
      invariant FindShape(sub, val) == FindShape(s, val)
      invariant TreeRemove(TreeOf(s), val) == PlugTree(p, TreeRemove(TreeOf(sub), val))
      decreases sub
    {
      PlugFacts(p, sub);
      parent := cur;
      if val > cur.val {
        p, sub := GoRight(sub.l, cur, p), sub.r;
        cur := cur.right;
      } else {
        p, sub := GoLeft(p, cur, sub.r), sub.l;
        cur := cur.left;
      }
    }
  }

  /** The root case of remove: a placeholder parent with key 0 is made to
    * hold `cur` as its left child, removeNode runs below it, and the
    * placeholder's left child becomes the new root. */
  method RemoveTop(cur: Node, ghost s: Shape) returns (newRoot: Node?, removed: Node)
    requires s.Cell? && s.n == cur && Linked(s) && Distinct(s)
    modifies Nodes(s)`left, Nodes(s)`right, Nodes(s)`val
    ensures newRoot == Ptr(RemoveRootShape(s))
    ensures Linked(RemoveRootShape(s)) && Distinct(RemoveRootShape(s))
    ensures TreeOf(RemoveRootShape(s)) == old(RemoveRoot(TreeOf(s)))
    ensures removed == DetachedNode(s) && removed.left == null && removed.right == null
    ensures removed.val == old(cur.val)
    ensures s.l.Cell? && s.r.Cell? ==> cur.val == old(Min(TreeOf(s.r)))
  {
    NodesAllocated(s);
    var fakeParent := new Node(0, cur, null);
    ghost var fp := GoLeft(Top, fakeParent, Nil);
    assert Plug(fp, s) == Cell(s, fakeParent, Nil);
    ghost var goal := RemoveRoot(TreeOf(s));
    removed := RemoveNode(cur, fakeParent, fp, s);
    assert Plug(fp, RemoveRootShape(s)) == Cell(RemoveRootShape(s), fakeParent, Nil);
    newRoot := fakeParent.left;
  }

  /** The unlinking step of remove, once the node `cur` holding the key has
    * been found below `parent` (null at the root): removeNode runs below the
    * real parent or below a placeholder, and the root pointer is updated in
    * the latter case. */
  method Unlink(root: Node?, cur: Node, parent: Node?, ghost p: Path, ghost sub: Shape)
    returns (newRoot: Node?, removed: Node, ghost rest: Shape)
    requires sub.Cell? && sub.n == cur
    requires parent == null <==> p.Top?
    requires parent != null ==> p.n == parent
    requires Ptr(Plug(p, sub)) == root && Linked(Plug(p, sub)) && Distinct(Plug(p, sub))
    modifies Nodes(Plug(p, sub))`left, Nodes(Plug(p, sub))`right, Nodes(Plug(p, sub))`val
    ensures rest == Plug(p, RemoveRootShape(sub)) && Ptr(rest) == newRoot
    ensures Linked(rest) && Distinct(rest)
    ensures Nodes(rest) == Nodes(Plug(p, sub)) - {DetachedNode(sub)}
    ensures TreeOf(rest) == old(PlugTree(p, RemoveRoot(TreeOf(sub))))
    ensures removed == DetachedNode(sub) && removed.left == null && removed.right == null
    ensures removed.val == old(cur.val)
    ensures Returned(cur, sub, old(TreeOf(sub)), old(cur.val))
  {
    PlugFacts(p, sub);
    PlugNodes(p, sub);
    ghost var found := TreeOf(sub);
    assert found.left == TreeOf(sub.l) && found.right == TreeOf(sub.r);
    if sub.l.Cell? && sub.r.Cell? {
      RemoveMinShapeNodes(sub.r);
    }
    rest := Plug(p, RemoveRootShape(sub));
    if parent == null {
      RemoveRootShapeNodes(sub);
      newRoot, removed := RemoveTop(cur, sub);
    } else {
      RemovePlugNodes(p, sub);
      removed := RemoveNode(cur, parent, p, sub);
      newRoot := root;
    }
  }

  /** What remove hands back about the node `r` it found at the top of
    * `found` (holding the subtree `t` before removal): with two children the
    * node stays in place holding the successor's key and another node is
    * unlinked; otherwise `r` itself is the unlinked node, still holding `val`
    * and with both links cleared. */
  ghost predicate Returned(r: Node, found: Shape, t: Tree, val: int)
    reads r
  {
    found.Cell? && t.Node? && found.n == r &&
    if t.left.Node? && t.right.Node? then DetachedNode(found) != r && r.val == Min(t.right)
    else DetachedNode(found) == r && r.val == val && r.left == null && r.right == null
  }

  /** The body of remove on the structure `s` below the root pointer: the
    * descent, the test for a missing key, and the unlinking step. `r` is the
    * node remove returns as written (`cur`), `removed` the node removeNode
    * returns, which is the one actually unlinked. */
  method RemoveFrom(root: Node?, val: int, ghost s: Shape)
    returns (r: Node?, removed: Node?, newRoot: Node?, ghost rest: Shape)
    requires Ptr(s) == root && Linked(s) && Distinct(s)
    modifies Nodes(s)`left, Nodes(s)`right, Nodes(s)`val
    ensures r == old(Ptr(FindShape(s, val))) && (r == null <==> removed == null)
    ensures Ptr(rest) == newRoot && Linked(rest) && Distinct(rest)
    ensures r == null ==> rest == s
    ensures r == null ==> forall n :: n in Nodes(s) && old(allocated(n)) ==> unchanged(n)
    ensures r != null ==> Nodes(rest) == Nodes(s) - {old(DetachedNode(FindShape(s, val)))}
    ensures TreeOf(rest) == old(TreeRemove(TreeOf(s), val))
    ensures r != null ==> Returned(r, old(FindShape(s, val)), old(TreeOf(FindShape(s, val))), val)
    ensures r != null ==> Some(r.val) == old(ReturnedKey(TreeOf(s), val))
    ensures removed != null ==> removed == old(DetachedNode(FindShape(s, val)))
    ensures removed != null ==> removed.val == val && removed.left == null && removed.right == null
  {
    NodesAllocated(s);
    FindShapeTree(s, val);
    ghost var goal := TreeRemove(TreeOf(s), val);
    ghost var found := FindShape(s, val);
    ghost var t := TreeOf(found);
    NodesAllocated(found);
    var cur, parent;
    ghost var p, sub;
    cur, parent, p, sub := Descend(root, val, s);
    assert sub == found && TreeOf(sub) == t;
    if cur == null || cur.val != val {
      FindShapeTree(s, val);
      return null, null, root, s;
    }
    assert goal == PlugTree(p, RemoveRoot(TreeOf(sub)));
    r := cur;
    newRoot, removed, rest := Unlink(root, cur, parent, p, sub);
  }

  // ---------------------------------------------------------------------
  // The tree object

  /** The tree object: a reference to the root node. `shape` and `Repr`
    * describe the nodes reachable from it. */
  class BinarySearchTree {
    var root: Node?
    ghost var shape: Shape
    ghost var Repr: set<Node>

    /** The nodes reachable from `root` form a tree: each is reached once. */
    ghost predicate Valid()
      reads this, Repr
    {
      Repr == Nodes(shape) && Ptr(shape) == root && Distinct(shape) && Linked(shape)
    }

    /** The keys of the tree, as a value. */
    ghost function Model(): Tree
      reads this, Repr
      requires Valid()
    {
      TreeOf(shape)
    }

    /** An empty tree. */
    constructor ()
      ensures Valid() && Model() == Leaf && Repr == {}
    {
      root := null;
      shape := Nil;
      Repr := {};
    }

    /** insert(val), by iteration: descend from the root, left for smaller
      * keys and right otherwise, and hang a fresh node in the first empty
      * slot. `added` is that node: the only one that joins `Repr`. */
    method Insert(val: int) returns (ghost added: Node)
      requires Valid()
      modifies this, Repr`left, Repr`right
      ensures Valid()
      ensures Model() == TreeInsert(old(Model()), val)
      ensures fresh(added) && Repr == old(Repr) + {added}
      ensures added.val == val && added.left == null && added.right == null
    {
      if root == null {
        root := new Node(val, null, null);
        shape := Cell(Nil, root, Nil);
        Repr, added := {root}, root;
        return;
      }
      var current: Node := root;
      ghost var p := Top;
      ghost var sub := shape;
      while true
        invariant unchanged(this) && unchanged(Repr)
        invariant sub.Cell? && sub.n == current && Plug(p, sub) == shape
        invariant TreeInsert(TreeOf(shape), val) == PlugTree(p, TreeInsert(TreeOf(sub), val))
        decreases sub
      {
        PlugFacts(p, sub);
        PlugNodes(p, sub);
        var next := if val < current.val then current.left else current.right;
        if next == null {
          ghost var n, grown := AddLeaf(current, val, p, sub);
          shape, Repr, added := Plug(p, grown), Repr + {n}, n;
          return;
        }
        if val < current.val {
          p, sub := GoLeft(p, current, sub.r), sub.l;
        } else {
          p, sub := GoRight(sub.l, current, p), sub.r;
        }
        current := next;
      }
    }

    /** insertRecursively(val): the same insertion, by recursion from the
      * root; `added` is the new node. */
    method InsertRecursively(val: int) returns (ghost added: Node)
      requires Valid()
      modifies this, Repr`left, Repr`right
      ensures Valid()
      ensures Model() == TreeInsert(old(Model()), val)
      ensures fresh(added) && Repr == old(Repr) + {added}
      ensures added.val == val && added.left == null && added.right == null
    {
      if root == null {
        root := new Node(val, null, null);
        shape := Cell(Nil, root, Nil);
        Repr, added := {root}, root;
        return;
      }
      var top;
      ghost var grown;
      top, grown, added := InsertAt(root, val, shape);
      shape, Repr := grown, Repr + {added};
    }

    /** Each node of the tree holds one key: there are as many nodes as
      * keys, counted with multiplicity. */
    lemma NodesPerKey()
      requires Valid()
      ensures |Repr| == Size(Model()) == |Keys(Model())|
    {
      NodeCount(shape);
      KeysSize(Model());
    }

    /** find(val), by iteration: the node the search path reaches first whose
      * key is `val`, or null. On a search tree a node is found exactly when
      * `val` is a key. */
    method Find(val: int) returns (r: Node?)
      requires Valid()
      ensures r == Ptr(FindShape(shape, val))
      ensures r != null ==> r in Repr && r.val == val
      ensures r == null <==> BstModel.FindRecursively(Model(), val).None?
      ensures IsBst(Model()) ==> (r != null <==> val in Keys(Model()))
    {
      var cur := root;
      ghost var sub := shape;
      while cur != null && cur.val != val
        invariant Ptr(sub) == cur && Linked(sub) && Nodes(sub) <= Repr
        invariant FindShape(sub, val) == FindShape(shape, val)
        decreases sub
      {
        if val > cur.val {
          cur, sub := cur.right, sub.r;
        } else {
          cur, sub := cur.left, sub.l;
        }
      }
      if cur != null && cur.val == val {
        r := cur;
      } else {
        r := null;
      }
      FindShapeTree(shape, val);
      if IsBst(Model()) {
        FindRecursivelyComplete(Model(), val);
      }
    }

    /** findRecursively(val): the same search, by recursion. */
    method FindRecursively(val: int) returns (r: Node?)
      requires Valid()
      ensures r == Ptr(FindShape(shape, val))
      ensures r != null ==> r in Repr && r.val == val
      ensures r != null ==> BstModel.FindRecursively(Model(), val) == Some(TreeOf(FindShape(shape, val)))
      ensures r == null <==> BstModel.FindRecursively(Model(), val).None?
      ensures IsBst(Model()) ==> (r != null <==> val in Keys(Model()))
    {
      r := FindFrom(root, val, shape);
      FindShapeTree(shape, val);
      if IsBst(Model()) {
        FindRecursivelyComplete(Model(), val);
      }
    }

    /** dfsPreOrder(): every key once, each node before its subtrees. */
    method DfsPreOrder() returns (r: seq<int>)
      requires Valid()
      ensures r == BstModel.DfsPreOrder(Model())
      ensures multiset(r) == Keys(Model())
    {
      r := PreOrderFrom(root, shape);
      PreOrderKeys(Model());
    }

    /** dfsInOrder(): every key once, left subtree first; sorted on a search
      * tree. */
    method DfsInOrder() returns (r: seq<int>)
      requires Valid()
      ensures r == BstModel.DfsInOrder(Model())
      ensures multiset(r) == Keys(Model())
      ensures IsBst(Model()) ==> Sorted(r)
    {
      r := InOrderFrom(root, shape);
      InOrderKeys(Model());
      if IsBst(Model()) {
        InOrderSorted(Model());
      }
    }

    /** dfsPostOrder(): every key once, each node after its subtrees. */
    method DfsPostOrder() returns (r: seq<int>)
      requires Valid()
      ensures r == BstModel.DfsPostOrder(Model())
      ensures multiset(r) == Keys(Model())
    {
      r := PostOrderFrom(root, shape);
      PostOrderKeys(Model());
    }

    /** isBalanced(): the heights of the root's two subtrees, as level()
      * measures them, differ by at most one. */
    method IsBalanced() returns (b: bool)
      requires Valid()
      ensures b == BstModel.IsBalanced(Model())
    {
      if root == null {
        return true;
      }
      var lh := LevelFrom(root.left, 0, shape.l);
      var rh := LevelFrom(root.right, 0, shape.r);
      b := AbsInt(lh - rh) <= 1;
    }

    /** findSecondHighest(): the last but one key in in-order, or nothing
      * for a tree of fewer than two nodes. */
    method FindSecondHighest() returns (r: Option<int>)
      requires Valid()
      ensures r == BstModel.FindSecondHighest(Model())
      ensures r == if Size(Model()) >= 2 then Some(BstModel.DfsInOrder(Model())[Size(Model()) - 2]) else None
    {
      if root == null {
        return None;
      }
      r := SecondHighestFrom(root, shape);
      SecondHighestIsPenultimate(Model());
    }

    /** The nodes waiting in bfs's queue, with the shapes below them and the
      * subtrees they stand for. */
    ghost predicate Queued(queue: seq<Node>, shs: seq<Shape>, ts: seq<Tree>)
      reads this, Repr
    {
      |shs| == |queue| == |ts| &&
      forall i :: 0 <= i < |shs| ==>
        shs[i].Cell? && shs[i].n == queue[i] && Nodes(shs[i]) <= Repr &&
        Linked(shs[i]) && TreeOf(shs[i]) == ts[i]
    }

    lemma QueuedTail(queue: seq<Node>, shs: seq<Shape>, ts: seq<Tree>)
      requires Queued(queue, shs, ts) && |queue| > 0
      ensures Queued(queue[1..], shs[1..], ts[1..])
    {
      forall i | 0 <= i < |shs| - 1
        ensures shs[1..][i] == shs[i + 1] && ts[1..][i] == ts[i + 1] && queue[1..][i] == queue[i + 1]
      {
      }
    }

    lemma QueuedPush(queue: seq<Node>, shs: seq<Shape>, ts: seq<Tree>, sh: Shape)
      requires Queued(queue, shs, ts)
      requires sh.Cell? && Nodes(sh) <= Repr && Linked(sh)
      ensures Queued(queue + [sh.n], shs + [sh], ts + [TreeOf(sh)])
    {
    }

    /** bfs(): the keys in level order, by a FIFO queue of nodes. The queue
      * starts with the root, so an empty tree makes bfs fail; that is the
      * `None` result. */
    method Bfs() returns (r: Option<seq<int>>)
      requires Valid()
      ensures r.None? <==> Model() == Leaf
      ensures r.Some? ==> r.value == LevelOrder([Model()])
      ensures r.Some? ==> |r.value| == Size(Model()) && multiset(r.value) == Keys(Model())
    {
      if root == null {
        return None;
      }
      var queue: seq<Node> := [root];
      var result: seq<int> := [];
      ghost var shs: seq<Shape> := [shape];
      ghost var ts: seq<Tree> := [Model()];
      while |queue| > 0
        invariant Queued(queue, shs, ts)
        invariant result + LevelOrder(ts) == LevelOrder([Model()])
        decreases SizeSum(ts), |ts|
      {
        var node := queue[0];
        ghost var sh, t, rest, done := shs[0], ts[0], ts[1..], result;
        assert sh.Cell? && Linked(sh) && Nodes(sh) <= Repr && TreeOf(sh) == t;
        assert t == Tree.Node(TreeOf(sh.l), node.val, TreeOf(sh.r));
        assert (node.left != null) == t.left.Node? && (node.right != null) == t.right.Node?;
        ghost var later := LevelOrder(rest + Children(t));
        assert LevelOrder(ts) == [node.val] + later;
        ghost var before := SizeSum(ts);
        result := result + [node.val];
        QueuedTail(queue, shs, ts);
        queue, shs, ts := queue[1..], shs[1..], rest;
        ghost var kids: seq<Tree> := [];
        assert ts == rest + kids;
        if node.left != null {
          var child: Node := node.left;
          QueuedPush(queue, shs, ts, sh.l);
          queue, shs, ts, kids := queue + [child], shs + [sh.l], ts + [t.left], [t.left];
        }
        if node.right != null {
          var child: Node := node.right;
          QueuedPush(queue, shs, ts, sh.r);
          AppendAssoc(rest, kids, [t.right]);
          queue, shs, ts, kids := queue + [child], shs + [sh.r], ts + [t.right], kids + [t.right];
        }
        assert ts == rest + kids;
        assert kids == Children(t);
        AppendAssoc(done, [node.val], later);
        assert SizeSum(ts) < before by {
          SumsAppend(rest, Children(t));
          ChildrenSums(t);
        }
      }
      r := Some(result);
      BfsKeys(Model());
    }

    /** remove(val): search for the first node holding `val` while tracking
      * its parent, and unlink it with removeNode (below a placeholder parent
      * when it is the root). The result is the node that leaves the
      * structure, holding `val` with both links cleared, or null when no node
      * holds `val`. (As written, remove returns the node the search found,
      * which with two children stays in place holding its successor's key;
      * see RemoveFrom and ReturnedKey.) */
    method Remove(val: int) returns (r: Node?)
      requires Valid()
      modifies this, Repr`left, Repr`right, Repr`val
      ensures Valid()
      ensures Model() == TreeRemove(old(Model()), val)
      ensures r == null <==> BstModel.FindRecursively(old(Model()), val).None?
      ensures r == null ==> unchanged(this) && unchanged(Repr)
      ensures r != null ==> old(FindShape(shape, val)).Cell? && r == old(DetachedNode(FindShape(shape, val)))
      ensures r != null ==> r in old(Repr) && Repr == old(Repr) - {r}
      ensures r != null ==> r.val == val && r.left == null && r.right == null
    {
      FindShapeTree(shape, val);
      ghost var found, before := FindShape(shape, val), Model();
      ghost var kept := if found.Cell? then Repr - {DetachedNode(found)} else Repr;
      if found.Cell? {
        DetachedNodeIn(found);
      }
      var cur, newRoot;
      ghost var rest;
      cur, r, newRoot, rest := RemoveFrom(root, val, shape);
      assert Nodes(rest) == kept && TreeOf(rest) == TreeRemove(before, val);
      assert Linked(rest) && Distinct(rest) && Ptr(rest) == newRoot;
      root, shape, Repr := newRoot, rest, kept;
    }
  }
}
