/** The node objects of the tree and a ghost account of how they are linked:
  * a `Shape` says which node object sits where, `Linked` says that the child
  * links agree with it, and `TreeOf` reads the abstract tree off the nodes.
  * A `Path` is the way from the top of a shape down to one of its subshapes,
  * which is what the descending loops of insert, find and remove walk. */
module BstHeap {
  import opened BstModel

  /** A tree node: one key and two child links, all updated in place. */
  class Node {
    var val: int
    var left: Node?
    var right: Node?

    constructor (val: int, left: Node?, right: Node?)
      ensures this.val == val && this.left == left && this.right == right
    {
      this.val := val;
      this.left := left;
      this.right := right;
    }
  }

  /** Which node object sits where in a node structure. */
  datatype Shape = Nil | Cell(l: Shape, n: Node, r: Shape)

  function Nodes(s: Shape): set<Node>
  {
    match s
    case Nil => {}
    case Cell(l, n, r) => Nodes(l) + {n} + Nodes(r)
  }

  /** The reference to the top node of a shape (`null` for the empty one). */
  function Ptr(s: Shape): Node?
  {
    if s.Nil? then null else s.n
  }

  /** No node object occurs twice: the structure is a tree, not a graph. */
  ghost predicate Distinct(s: Shape)
  {
    match s
    case Nil => true
    case Cell(l, n, r) =>
      n !in Nodes(l) && n !in Nodes(r) && Nodes(l) !! Nodes(r) && Distinct(l) && Distinct(r)
  }

  /** The child links of the nodes agree with the shape. */
  ghost predicate Linked(s: Shape)
    reads Nodes(s)`left, Nodes(s)`right
  {
    match s
    case Nil => true
    case Cell(l, n, r) => n.left == Ptr(l) && n.right == Ptr(r) && Linked(l) && Linked(r)
  }

  /** The abstract tree of keys the nodes of a shape hold. */
  ghost function TreeOf(s: Shape): Tree
    reads Nodes(s)`val
  {
    match s
    case Nil => Leaf
    case Cell(l, n, r) => Tree.Node(TreeOf(l), n.val, TreeOf(r))
  }

  lemma {:induction false} NodesAllocated(s: Shape)
    ensures forall x :: x in Nodes(s) ==> allocated(x)
  {
    match s
    case Nil =>
    case Cell(l, _, r) =>
      NodesAllocated(l);
      NodesAllocated(r);
  }

  // ---------------------------------------------------------------------
  // Paths into a shape

  /** The way from the top of a shape to one of its subshapes, innermost step
    * first: each step names the node passed and the sibling left behind. */
  datatype Path = Top | GoLeft(up: Path, n: Node, r: Shape) | GoRight(l: Shape, n: Node, up: Path)

  /** The whole shape, given the path to a subshape and that subshape. */
  function Plug(p: Path, s: Shape): Shape
  {
    match p
    case Top => s
    case GoLeft(up, n, r) => Plug(up, Cell(s, n, r))
    case GoRight(l, n, up) => Plug(up, Cell(l, n, s))
  }

  /** The nodes on a path and in the siblings it leaves behind. */
  function PathNodes(p: Path): set<Node>
  {
    match p
    case Top => {}
    case GoLeft(up, n, r) => PathNodes(up) + {n} + Nodes(r)
    case GoRight(l, n, up) => Nodes(l) + {n} + PathNodes(up)
  }

  ghost predicate PathDistinct(p: Path)
  {
    match p
    case Top => true
    case GoLeft(up, n, r) =>
      n !in Nodes(r) && n !in PathNodes(up) && Nodes(r) !! PathNodes(up) && Distinct(r) && PathDistinct(up)
    case GoRight(l, n, up) =>
      n !in Nodes(l) && n !in PathNodes(up) && Nodes(l) !! PathNodes(up) && Distinct(l) && PathDistinct(up)
  }

  /** The links along the path agree with it, the innermost step pointing at `c`. */
  ghost predicate PathLinked(p: Path, c: Node?)
    reads PathNodes(p)`left, PathNodes(p)`right
  {
    match p
    case Top => true
    case GoLeft(up, n, r) => n.left == c && n.right == Ptr(r) && Linked(r) && PathLinked(up, n)
    case GoRight(l, n, up) => n.left == Ptr(l) && n.right == c && Linked(l) && PathLinked(up, n)
  }

  /** The abstract tree around a path, with `t` in the place it leads to. */
  ghost function PlugTree(p: Path, t: Tree): Tree
    reads PathNodes(p)`val
  {
    match p
    case Top => t
    case GoLeft(up, n, r) => PlugTree(up, Tree.Node(t, n.val, TreeOf(r)))
    case GoRight(l, n, up) => PlugTree(up, Tree.Node(TreeOf(l), n.val, t))
  }

  lemma {:induction false} PlugNodes(p: Path, s: Shape)
    ensures Nodes(Plug(p, s)) == PathNodes(p) + Nodes(s)
  {
    match p
    case Top =>
    case GoLeft(up, n, r) => PlugNodes(up, Cell(s, n, r));
    case GoRight(l, n, up) => PlugNodes(up, Cell(l, n, s));
  }

  /** A structure is a tree exactly when the path and the subshape are, and
    * share no node. */
  lemma {:induction false} PlugDistinct(p: Path, s: Shape)
    ensures Distinct(Plug(p, s)) <==> PathDistinct(p) && Distinct(s) && PathNodes(p) !! Nodes(s)
  {
    match p
    case Top =>
    case GoLeft(up, n, r) =>
      PlugDistinct(up, Cell(s, n, r));
    case GoRight(l, n, up) =>
      PlugDistinct(up, Cell(l, n, s));
  }

  lemma {:induction false} PlugLinked(p: Path, s: Shape)
    ensures Linked(Plug(p, s)) <==> PathLinked(p, Ptr(s)) && Linked(s)
  {
    match p
    case Top =>
    case GoLeft(up, n, r) =>
      PlugLinked(up, Cell(s, n, r));
    case GoRight(l, n, up) =>
      PlugLinked(up, Cell(l, n, s));
  }

  lemma {:induction false} PlugTreeOf(p: Path, s: Shape)
    ensures TreeOf(Plug(p, s)) == PlugTree(p, TreeOf(s))
  {
    match p
    case Top =>
    case GoLeft(up, n, r) =>
      PlugTreeOf(up, Cell(s, n, r));
    case GoRight(l, n, up) =>
      PlugTreeOf(up, Cell(l, n, s));
  }

  lemma {:induction false} PathNodesAllocated(p: Path)
    ensures forall x :: x in PathNodes(p) ==> allocated(x)
  {
    match p
    case Top =>
    case GoLeft(up, _, r) =>
      PathNodesAllocated(up);
      NodesAllocated(r);
    case GoRight(l, _, up) =>
      PathNodesAllocated(up);
      NodesAllocated(l);
  }

  /** Outside the top step of a path, the top of the whole shape does not
    * depend on what the path leads to. */
  lemma {:induction false} PlugPtr(p: Path, a: Shape, b: Shape)
    requires p.Top? ==> Ptr(a) == Ptr(b)
    ensures Ptr(Plug(p, a)) == Ptr(Plug(p, b))
  {
    match p
    case Top =>
    case GoLeft(up, n, r) => PlugPtr(up, Cell(a, n, r), Cell(b, n, r));
    case GoRight(l, n, up) => PlugPtr(up, Cell(l, n, a), Cell(l, n, b));
  }

  /** Replacing the subshape a path leads to by one that has the same top
    * node and one more node `n`, new to the structure, keeps the structure a
    * linked tree with `n` added. */
  lemma PlugGrow(p: Path, sub: Shape, n: Node, sub': Shape)
    requires sub.Cell? && sub'.Cell? && sub'.n == sub.n
    requires Nodes(sub') == Nodes(sub) + {n} && n !in Nodes(Plug(p, sub))
    requires Distinct(Plug(p, sub)) && Distinct(sub')
    requires PathLinked(p, sub.n) && Linked(sub')
    ensures Linked(Plug(p, sub')) && Distinct(Plug(p, sub'))
    ensures Nodes(Plug(p, sub')) == Nodes(Plug(p, sub)) + {n}
    ensures Ptr(Plug(p, sub')) == Ptr(Plug(p, sub))
    ensures TreeOf(Plug(p, sub')) == PlugTree(p, TreeOf(sub'))
  {
    PlugNodes(p, sub);
    PlugNodes(p, sub');
    PlugDistinct(p, sub);
    PlugDistinct(p, sub');
    PlugLinked(p, sub');
    PlugPtr(p, sub, sub');
    PlugTreeOf(p, sub');
  }

  /** In a structure without sharing, there is one node per key. */
  lemma {:induction false} NodeCount(s: Shape)
    requires Distinct(s)
    ensures |Nodes(s)| == Size(TreeOf(s))
  {
    match s
    case Nil =>
    case Cell(l, n, r) =>
      NodeCount(l);
      NodeCount(r);
      CellCount(l, n, r);
  }

  lemma CellCount(l: Shape, n: Node, r: Shape)
    requires Nodes(l) !! Nodes(r) && n !in Nodes(l) + Nodes(r)
    ensures |Nodes(Cell(l, n, r))| == |Nodes(l)| + 1 + |Nodes(r)|
  {
    DisjointUnionCount(Nodes(l), Nodes(r), n);
  }

  lemma DisjointUnionCount(a: set<Node>, b: set<Node>, n: Node)
    requires a !! b && n !in a + b
    ensures |a + {n} + b| == |a| + 1 + |b|
  {
    assert a * b == {};
    assert a + {n} + b == (a + b) + {n};
  }

  // ---------------------------------------------------------------------
  // Search and removal on shapes

  /** The subshape rooted at the first node on the search path for `x` whose
    * key is `x`, or `Nil` when the path runs out. */
  ghost function FindShape(s: Shape, x: int): Shape
    reads Nodes(s)`val
  {
    match s
    case Nil => Nil
    case Cell(l, n, r) =>
      if x > n.val then FindShape(r, x)
      else if x < n.val then FindShape(l, x)
      else s
  }

  /** The node search finds the subtree the value-level search finds. */
  lemma {:induction false} FindShapeTree(s: Shape, x: int)
    ensures Nodes(FindShape(s, x)) <= Nodes(s)
    ensures FindShape(s, x).Cell? ==> FindShape(s, x).n.val == x
    ensures FindRecursively(TreeOf(s), x) ==
            if FindShape(s, x).Nil? then None else Some(TreeOf(FindShape(s, x)))
  {
    match s
    case Nil =>
    case Cell(l, n, r) =>
      if x > n.val {
        FindShapeTree(r, x);
      } else if x < n.val {
        FindShapeTree(l, x);
      }
  }

  /** The node at the end of the leftmost spine. */
  function MinNode(s: Shape): Node
    requires s.Cell?
  {
    if s.l.Nil? then s.n else MinNode(s.l)
  }

  /** The shape with its leftmost node cut out, its right child moving up. */
  function RemoveMinShape(s: Shape): Shape
    requires s.Cell?
  {
    if s.l.Nil? then s.r else Cell(RemoveMinShape(s.l), s.n, s.r)
  }

  /** The shape removeNode leaves: with two children the top node stays in
    * place (it takes over the successor's key) and the successor's node is
    * cut out; otherwise the top node is cut out and its child moves up. */
  function RemoveRootShape(s: Shape): Shape
    requires s.Cell?
  {
    if s.l.Cell? && s.r.Cell? then Cell(s.l, s.n, RemoveMinShape(s.r))
    else if s.l.Cell? then s.l
    else s.r
  }

  /** The node object removeNode unlinks from the structure. */
  function DetachedNode(s: Shape): Node
    requires s.Cell?
  {
    if s.l.Cell? && s.r.Cell? then MinNode(s.r) else s.n
  }

  /** The leftmost node belongs to the structure. */
  lemma {:induction false} MinNodeIn(s: Shape)
    requires s.Cell?
    ensures MinNode(s) in Nodes(s)
  {
    if s.l.Cell? {
      MinNodeIn(s.l);
    }
  }

  /** The node removeNode unlinks belongs to the structure it is unlinked
    * from. */
  lemma DetachedNodeIn(s: Shape)
    requires s.Cell?
    ensures DetachedNode(s) in Nodes(s)
  {
    if s.l.Cell? && s.r.Cell? {
      MinNodeIn(s.r);
    }
  }

  lemma {:induction false} RemoveMinShapeNodes(s: Shape)
    requires s.Cell? && Distinct(s)
    ensures MinNode(s) in Nodes(s)
    ensures Nodes(RemoveMinShape(s)) == Nodes(s) - {MinNode(s)}
    ensures Distinct(RemoveMinShape(s))
  {
    if s.l.Cell? {
      RemoveMinShapeNodes(s.l);
    }
  }

  /** The leftmost node holds the minimum, and cutting it out of the nodes is
    * cutting the minimum out of the tree. */
  lemma {:induction false} RemoveMinShapeTree(s: Shape)
    requires s.Cell?
    ensures MinNode(s).val == Min(TreeOf(s))
    ensures TreeOf(RemoveMinShape(s)) == RemoveMin(TreeOf(s))
  {
    if s.l.Cell? {
      RemoveMinShapeTree(s.l);
    }
  }

  /** removeNode unlinks exactly one node of the structure and keeps the rest
    * free of sharing. */
  lemma RemoveRootShapeNodes(s: Shape)
    requires s.Cell? && Distinct(s)
    ensures DetachedNode(s) in Nodes(s)
    ensures Nodes(RemoveRootShape(s)) == Nodes(s) - {DetachedNode(s)}
    ensures Distinct(RemoveRootShape(s))
  {
    if s.l.Cell? && s.r.Cell? {
      RemoveMinShapeNodes(s.r);
    }
  }

  /** Below a parent, removeNode takes exactly the detached node out of the
    * whole structure and leaves the root pointer alone. */
  lemma RemovePlugNodes(p: Path, s: Shape)
    requires s.Cell? && !p.Top? && Distinct(Plug(p, s))
    ensures DetachedNode(s) in Nodes(Plug(p, s))
    ensures Nodes(Plug(p, RemoveRootShape(s))) == Nodes(Plug(p, s)) - {DetachedNode(s)}
    ensures Ptr(Plug(p, RemoveRootShape(s))) == Ptr(Plug(p, s))
  {
    PlugDistinct(p, s);
    RemoveRootShapeNodes(s);
    PlugNodes(p, s);
    PlugNodes(p, RemoveRootShape(s));
    PlugPtr(p, s, RemoveRootShape(s));
  }
}
